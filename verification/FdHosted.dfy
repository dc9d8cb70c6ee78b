/** The hosted kernel's descriptor table: every entry points at a shared object that counts the
    entries pointing at it. The runtime's table of slots gives the same service. */
module FdHosted {
  import opened FdTable
  import opened FdRuntime

  const LIMIT := 1024   // descriptor numbers the lowest-number search tries

  datatype Entry = Entry(pid: int, fd: int, obj: Obj)

  type Entries = map<nat, Entry>

  function EntryKey(e: Entry): Key { (e.pid, e.fd) }

  ghost function Pointing(m: Entries, o: Obj): set<nat> { set i | i in m && m[i].obj == o }

  /** Objects count the entries pointing at them; `extra` are references taken in
      advance. */
  ghost predicate RefsRight(m: Entries, refs: map<Obj, int>, extra: multiset<Obj>) {
    && (forall i :: i in m ==> m[i].obj in refs)
    && (forall o :: o in refs ==> refs[o] == |Pointing(m, o)| + extra[o] && refs[o] > 0)
    && (forall o :: o in extra ==> o in refs)
  }

  ghost predicate OneEntry(m: Entries, i: nat, j: nat) {
    i in m && j in m && EntryKey(m[i]) == EntryKey(m[j]) ==> i == j
  }

  ghost predicate KeysDiffer(m: Entries) { forall i: nat, j: nat :: OneEntry(m, i, j) }

  ghost predicate Present(m: Entries, names: Names, k: Key) {
    k in names ==> exists i :: i in m && EntryKey(m[i]) == k && m[i].obj == names[k]
  }

  /** The entries show the names. */
  ghost predicate Lists(m: Entries, names: Names) {
    && (forall i :: i in m ==> EntryKey(m[i]) in names && names[EntryKey(m[i])] == m[i].obj)
    && (forall k :: Present(m, names, k))
  }

  // ----- erasing and adding an entry

  function Dropped(refs: map<Obj, int>, o: Obj): map<Obj, int> {
    if o in refs then (if refs[o] > 1 then refs[o := refs[o] - 1] else refs - {o}) else refs
  }

  lemma ErasePoints(m: Entries, i: nat, o: Obj)
    requires i in m
    ensures Pointing(m - {i}, o) == Pointing(m, o) - (if m[i].obj == o then {i} else {})
  {}

  lemma EraseRefs(m: Entries, refs: map<Obj, int>, extra: multiset<Obj>, i: nat)
    requires RefsRight(m, refs, extra) && i in m
    ensures RefsRight(m - {i}, Dropped(refs, m[i].obj), extra)
    ensures Dropped(refs, m[i].obj) == refs - {m[i].obj} <==> refs[m[i].obj] == 1
  {
    var o := m[i].obj;
    assert i in Pointing(m, o);
    forall p ensures Pointing(m - {i}, p) == Pointing(m, p) - (if o == p then {i} else {}) { ErasePoints(m, i, p); }
    if refs[o] == 1 {
      assert |Pointing(m, o)| == 1;
      assert Pointing(m, o) == {i} + (Pointing(m, o) - {i});
      forall j | j in m - {i} ensures (m - {i})[j].obj != o {
        assert j in Pointing(m, m[j].obj) && j != i;
      }
    }
  }

  lemma EraseLists(m: Entries, names: Names, i: nat)
    requires Lists(m, names) && KeysDiffer(m) && i in m
    ensures Lists(m - {i}, names - {EntryKey(m[i])}) && KeysDiffer(m - {i})
  {
    var t, rest := m - {i}, names - {EntryKey(m[i])};
    forall j | j in t ensures EntryKey(t[j]) in rest { assert OneEntry(m, i, j); }
    forall k ensures Present(t, rest, k) {
      assert Present(m, names, k);
      if k in rest {
        var j :| j in m && EntryKey(m[j]) == k && m[j].obj == names[k];
        assert j in t;
      }
    }
    forall a: nat, b: nat ensures OneEntry(t, a, b) { assert OneEntry(m, a, b); }
  }

  lemma EntryShown(m: Entries, names: Names, i: nat)
    requires Lists(m, names) && i in m
    ensures EntryKey(m[i]) in names && names[EntryKey(m[i])] == m[i].obj
  {}

  lemma OneMore(names: Names, key: Key, obj: Obj)
    requires key !in names && obj !in names.Values
    ensures multiset(names[key := obj].Values) == multiset(names.Values) + multiset{obj}
  {
    ValuesPut(names, key, obj);
  }

  /** What was opened is shown or closed, also after a name has gone. */
  lemma StillBalanced(acquired: multiset<Obj>, closed: multiset<Obj>, names: Names, rest: Names, obj: Obj, last: bool)
    requires acquired == closed + multiset(names.Values) && Gone(names, rest) == (if last then {obj} else {})
    requires multiset(names.Values) == multiset(rest.Values) + multiset(Gone(names, rest))
    ensures var after := if last then closed + multiset{obj} else closed;
            acquired == after + multiset(rest.Values) && after == closed + multiset(Gone(names, rest))
  {
    hide Gone;
    assert multiset({obj}) == multiset{obj};
  }

  lemma AddLists(m: Entries, names: Names, i: nat, e: Entry)
    requires Lists(m, names) && KeysDiffer(m) && i !in m && EntryKey(e) !in names
    ensures Lists(m[i := e], names[EntryKey(e) := e.obj]) && KeysDiffer(m[i := e])
  {
    var t, more := m[i := e], names[EntryKey(e) := e.obj];
    forall k ensures Present(t, more, k) {
      assert Present(m, names, k);
      if k == EntryKey(e) {
        assert i in t;
      } else if k in names {
        var j :| j in m && EntryKey(m[j]) == k && m[j].obj == names[k];
        assert j in t;
      }
    }
    forall a: nat, b: nat ensures OneEntry(t, a, b) { assert OneEntry(m, a, b); }
  }

  lemma AddPoints(m: Entries, i: nat, e: Entry, o: Obj)
    requires i !in m
    ensures Pointing(m[i := e], o) == Pointing(m, o) + (if o == e.obj then {i} else {})
    ensures |Pointing(m[i := e], o)| == |Pointing(m, o)| + (if o == e.obj then 1 else 0)
  {
    var t := m[i := e];
    forall j: nat ensures j in Pointing(t, o) <==> j in Pointing(m, o) || (j == i && o == e.obj) {}
    assert i !in Pointing(m, o);
    assert Pointing(t, o) == Pointing(m, o) + (if o == e.obj then {i} else {});
  }

  /** A new entry takes up the reference that was counted for it. */
  lemma AddRefs(m: Entries, refs: map<Obj, int>, extra: multiset<Obj>, i: nat, e: Entry)
    requires RefsRight(m, refs, extra) && i !in m && e.obj in extra
    ensures RefsRight(m[i := e], refs, extra - multiset{e.obj})
  {
    forall o | o in refs ensures refs[o] == |Pointing(m[i := e], o)| + (extra - multiset{e.obj})[o] && refs[o] > 0 {
      AddPoints(m, i, e, o);
    }
  }

  /** An object is shown exactly while it is counted, but for a reference taken in advance. */
  lemma CountedIffShown(m: Entries, refs: map<Obj, int>, names: Names, o: Obj)
    requires RefsRight(m, refs, multiset{}) && Lists(m, names)
    ensures o in refs <==> o in names.Values
  {
    if o in refs {
      assert Pointing(m, o) != {};
      var i :| i in Pointing(m, o);
      assert names[EntryKey(m[i])] == o;
    }
    if o in names.Values {
      var k :| k in names && names[k] == o;
      assert Present(m, names, k);
    }
  }

  class Hosted {
    var entries: Entries
    var refs: map<Obj, int>
    var nextSlot: nat
    ghost var names: Names
    ghost var acquired: multiset<Obj>
    ghost var closed: multiset<Obj>

    /** `extra` are references taken for entries that are still to come. */
    ghost predicate Table(extra: multiset<Obj>)
      reads this
    {
      && RefsRight(entries, refs, extra) && KeysDiffer(entries) && Lists(entries, names)
      && (forall i :: i in entries ==> i < nextSlot)
      && (forall k :: k in names ==> k.1 >= 0)
    }

    ghost predicate Valid()
      reads this
    {
      Table(multiset{}) && acquired == closed + multiset(names.Values)
    }

    constructor ()
      ensures Valid() && names == map[]
    {
      entries, refs, nextSlot := map[], map[], 1;
      names, acquired, closed := map[], multiset{}, multiset{};
      new;
      forall k ensures Present(entries, names, k) {}
      forall a: nat, b: nat ensures OneEntry(entries, a, b) {}
    }

    /** The process's own entry for `fd`, or else the last global one. */
    method FindEntry(fd: int, pid: int, globals: bool, ghost extra: multiset<Obj>) returns (r: int)
      requires Table(extra)
      ensures r == -1 <==> Resolve(names, pid, fd, globals) == None
      ensures r != -1 ==> 0 <= r && r in entries && Resolve(names, pid, fd, globals) == Some(EntryKey(entries[r]))
    {
      var global := -1;
      var i := 0;
      while i < nextSlot
        invariant 0 <= i <= nextSlot
        invariant forall j :: 0 <= j < i && j in entries ==> EntryKey(entries[j]) != (pid, fd)
        invariant global == -1 || (globals && 0 <= global < i && global in entries &&
                    EntryKey(entries[global]) == (0, fd))
        invariant global == -1 && globals ==> forall j :: 0 <= j < i && j in entries ==> EntryKey(entries[j]) != (0, fd)
      {
        if i in entries && entries[i].fd == fd {
          if entries[i].pid == pid { return i; }
          if globals && entries[i].pid == 0 { global := i; }
        }
        i := i + 1;
      }
      assert Present(entries, names, (pid, fd)) && Present(entries, names, (0, fd));
      r := global;
    }

    /** One reference less; without one the object is closed. */
    method CloseObject(obj: Obj)
      requires obj in refs && refs[obj] > 0
      modifies `refs, `closed
      ensures refs == Dropped(old(refs), obj)
      ensures closed == if old(refs)[obj] == 1 then old(closed) + multiset{obj} else old(closed)
    {
      refs := refs[obj := refs[obj] - 1];
      if refs[obj] > 0 { return; }
      closed := closed + multiset{obj};
      refs := refs - {obj};
      assert refs == old(refs) - {obj};
    }

    /** The entry goes, and the object with its last reference. */
    method CloseEntry(i: nat, ghost extra: multiset<Obj>)
      requires Table(extra) && i in entries
      modifies `entries, `refs, `names, `closed
      ensures Table(extra) && names == old(names) - {EntryKey(old(entries)[i])} && entries == old(entries) - {i}
      ensures refs == Dropped(old(refs), old(entries)[i].obj)
      ensures closed == if old(refs)[old(entries)[i].obj] == 1 then old(closed) + multiset{old(entries)[i].obj}
              else old(closed)
    {
      hide RefsRight, KeysDiffer, Lists;
      var e := entries[i];
      EntryCounted(entries, refs, extra, i);
      EraseRefs(entries, refs, extra, i);
      EraseLists(entries, names, i);
      entries := entries - {i};
      names := names - {EntryKey(e)};
      CloseObject(e.obj);
    }

    /** Closes one descriptor: its name goes, and the object with its last name. */
    method CloseListed(i: nat)
      requires Valid() && i in entries
      modifies `entries, `refs, `names, `closed
      ensures Valid() && names == old(names) - {EntryKey(old(entries)[i])} && entries == old(entries) - {i}
      ensures closed == old(closed) + multiset(Gone(old(names), names))
    {
      hide Table, Gone, Dropped, EntryKey;
      LastListed(i);
      ghost var rest := names - {EntryKey(entries[i])};
      StillBalanced(acquired, closed, names, rest, entries[i].obj, refs[entries[i].obj] == 1);
      CloseEntry(i, multiset{});
    }

    lemma LastListed(i: nat)
      requires Valid() && i in entries
      ensures var rest := names - {EntryKey(entries[i])};
              && entries[i].obj in refs
              && Gone(names, rest) == (if refs[entries[i].obj] == 1 then {entries[i].obj} else {})
              && multiset(names.Values) == multiset(rest.Values) + multiset(Gone(names, rest))
    {
      hide RefsRight, KeysDiffer, Lists, Gone;
      LastEntry(entries, refs, names, i);
    }

    method CloseFd(pid: int, fd: int) returns (result: Result)
      requires Valid()
      modifies `entries, `refs, `names, `closed
      ensures Valid() && (names, result) == Served(old(names), Closes(pid, fd), LIMIT)
      ensures closed == old(closed) + multiset(Gone(old(names), names))
    {
      hide RefsRight, KeysDiffer, Lists, Gone;
      var i := FindEntry(fd, pid, true, multiset{});
      if i == -1 {
        GoneNone(names);
        return NotFound;
      }
      CloseListed(i);
      result := Done;
    }

    /** Closes every descriptor of a process. */
    method CloseProcessFds(pid: int)
      requires Valid()
      modifies `entries, `refs, `names, `closed
      ensures Valid() && names == WithoutProcess(old(names), pid)
      ensures closed == old(closed) + multiset(Gone(old(names), names))
    {
      hide Valid, Gone, Narrowed;
      Balanced();
      NarrowSelf(names, pid);
      var i := 0;
      while i < nextSlot
        invariant 0 <= i <= nextSlot && Valid() && Narrowed(old(names), names, pid)
        invariant forall j :: 0 <= j < i && j in entries ==> entries[j].pid != pid
      {
        if i in entries && entries[i].pid == pid {
          NarrowMore(old(names), names, pid, EntryKey(entries[i]));
          CloseListed(i);
        }
        i := i + 1;
      }
      NoneListed(pid);
      NarrowAll(old(names), names, pid);
      Balanced();
      GoneBetween(old(names), names, pid, acquired, old(closed), closed);
    }

    lemma Balanced()
      requires Valid()
      ensures acquired == closed + multiset(names.Values)
    {}

    /** A process without entries has no names. */
    lemma NoneListed(pid: int)
      requires Valid() && forall j :: 0 <= j < nextSlot && j in entries ==> entries[j].pid != pid
      ensures forall k :: k in names ==> k.0 != pid
    {
      forall k | k in names ensures k.0 != pid { assert Present(entries, names, k); }
    }

    /** The lowest number that the process does not use, or the limit. */
    method LowestNumber(pid: int, ghost extra: multiset<Obj>) returns (fd: nat)
      requires Table(extra)
      ensures fd == LeastFd(names, pid, FIRST_FD, LIMIT)
    {
      fd := FIRST_FD;
      while fd < LIMIT
        invariant FIRST_FD <= fd <= LIMIT
        invariant LeastFd(names, pid, FIRST_FD, LIMIT) == LeastFd(names, pid, fd, LIMIT)
      {
        var taken := FindEntry(fd, pid, false, extra);
        if taken == -1 { return; }
        fd := fd + 1;
      }
    }

    method AddEntry(pid: int, fd: nat, obj: Obj, ghost extra: multiset<Obj>)
      requires Table(extra) && obj in extra && (pid, fd) !in names
      modifies `entries, `nextSlot, `names
      ensures Table(extra - multiset{obj}) && names == old(names)[(pid, fd) := obj]
    {
      hide RefsRight, KeysDiffer, Lists;
      var e := Entry(pid, fd, obj);
      AddRefs(entries, refs, extra, nextSlot, e);
      AddLists(entries, names, nextSlot, e);
      entries := entries[nextSlot := e];
      nextSlot := nextSlot + 1;
      names := names[(pid, fd) := obj];
    }

    /** An entry at a chosen number, replacing the process's own entry there. */
    method InstallAtNumber(pid: int, fd: nat, obj: Obj)
      requires Table(multiset{obj})
      modifies `entries, `nextSlot, `refs, `names, `closed
      ensures Table(multiset{}) && names == old(names)[(pid, fd) := obj]
      ensures closed == old(closed) + multiset(Gone(old(names), names) - {obj})
    {
      hide RefsRight, KeysDiffer, Lists, Gone;
      var existing := FindEntry(fd, pid, false, multiset{obj});
      if existing == -1 {
        GoneOnPut(names, (pid, fd), obj);
      } else {
        ReplacedEntry(entries, refs, names, existing, obj);
        CloseEntry(existing, multiset{obj});
      }
      AddEntry(pid, fd, obj, multiset{obj});
      assert names == old(names)[(pid, fd) := obj];
      assert multiset{obj} - multiset{obj} == multiset{};
    }

    method InstallNext(pid: int, obj: Obj) returns (result: Result)
      requires Table(multiset{obj})
      modifies `entries, `nextSlot, `names
      ensures (names, result) == Shown(old(names), pid, obj, LIMIT)
      ensures Table(if LeastFd(old(names), pid, FIRST_FD, LIMIT) < LIMIT then multiset{} else multiset{obj})
    {
      var fd := LowestNumber(pid, multiset{obj});
      if fd == LIMIT { return NoMemory; }
      AddEntry(pid, fd, obj, multiset{obj});
      assert multiset{obj} - multiset{obj} == multiset{};
      result := Fd(fd);
    }

    /** Without a free number the object stays counted with nothing to close it. */
    method OpenFd(pid: int, obj: Obj) returns (result: Result)
      requires Valid() && obj !in refs
      modifies this
      ensures (names, result) == Served(old(names), Opens(pid, obj), LIMIT)
      ensures acquired == old(acquired) + multiset{obj} && closed == old(closed)
      ensures Valid() <==> LeastFd(old(names), pid, FIRST_FD, LIMIT) < LIMIT
    {
      hide LeastFd, RefsRight, KeysDiffer, Lists;
      CountedIffShown(entries, refs, names, obj);
      NewObject(entries, refs, obj);
      refs := refs[obj := 1];
      acquired := acquired + multiset{obj};
      ghost var fd := LeastFd(names, pid, FIRST_FD, LIMIT);
      result := InstallNext(pid, obj);
      if fd < LIMIT {
        OneMore(old(names), (pid, fd), obj);
      } else {
        Unbalanced(acquired, closed, names.Values, obj);
      }
    }

    /** dup takes a reference first, and keeps it when there is no free number. */
    method DupFd(pid: int, fd: int) returns (result: Result)
      requires Valid()
      modifies `entries, `nextSlot, `refs, `names, `closed
      ensures (names, result) == Served(old(names), Dups(pid, fd), LIMIT) && closed == old(closed)
      ensures Valid() <==>
                old(Resolve(names, pid, fd, true).None? || LeastFd(names, pid, FIRST_FD, LIMIT) < LIMIT)
    {
      hide Gone;
      var i := FindEntry(fd, pid, true, multiset{});
      if i == -1 { return NotFound; }
      var obj := entries[i].obj;
      TakeReference(entries, refs, obj);
      assert names[EntryKey(entries[i])] == obj;
      ghost var least := LeastFd(names, pid, FIRST_FD, LIMIT);
      refs := refs[obj := refs[obj] + 1];
      result := InstallNext(pid, obj);
      if least < LIMIT {
        ValuesKept(old(names), (pid, least), EntryKey(old(entries)[i]));
      } else {
        SurplusWrong(entries, refs, obj);
      }
    }

    method Dup2Fd(pid: int, fd: int, to: int) returns (result: Result)
      requires Valid()
      modifies `entries, `nextSlot, `refs, `names, `closed
      ensures Valid() && (names, result) == Served(old(names), Dup2s(pid, fd, to), LIMIT)
      ensures closed == old(closed) + multiset(Gone(old(names), names))
    {
      hide RefsRight, KeysDiffer, Lists, Gone;
      GoneNone(names);
      if to < 0 { return InvalidArgument; }
      var i := FindEntry(fd, pid, true, multiset{});
      if i == -1 { return NotFound; }
      if fd == to { return Fd(to); }
      var obj := entries[i].obj;
      EntryCounted(entries, refs, multiset{}, i);
      EntryShown(entries, names, i);
      TakeReference(entries, refs, obj);
      OneStays(names, EntryKey(entries[i]), (pid, to));
      refs := refs[obj := refs[obj] + 1];
      InstallAtNumber(pid, to, obj);
      result := Fd(to);
    }

    /** Every entry of the parent is copied, and its object referenced, before any copy is added. */
    method CloneProcessFds(parent: int, child: int) returns (result: Result)
      requires Valid() && Bare(names, child)
      modifies `entries, `nextSlot, `refs, `names, `closed
      ensures Valid() && closed == old(closed)
      ensures (names, result) == Served(old(names), Clones(parent, child), LIMIT)
    {
      hide RefsRight, KeysDiffer, Lists, Collected, CopiesFrom, DistinctCopies, AddedSoFar, ObjectsOf, Bare, ClonedMap,
           ClonedNames;
      if parent <= 0 || child <= 0 || parent == child { return InvalidArgument; }
      var copies := CollectCopies(parent, child);
      ghost var before, shown, slots := entries, names, nextSlot;
      CollectedNew(entries, names, parent, child, nextSlot, copies);
      AddCopies(copies);
      AllAdded(before, shown, names, copies, parent, child, slots);
      ClonedNamesIsMap(shown, names, parent, child);
      result := Done;
    }

    method AddCopies(copies: seq<Entry>)
      requires Table(ObjectsOf(copies, 0)) && DistinctCopies(copies) && CopiesFrom(names, copies)
      modifies `entries, `nextSlot, `refs, `names, `closed
      ensures Table(multiset{}) && AddedSoFar(old(names), names, copies, |copies|)
      ensures names.Values == old(names).Values && closed == old(closed)
    {
      hide RefsRight, KeysDiffer, Lists, CopiesFrom, DistinctCopies, AddedSoFar, ObjectsOf;
      NothingAdded(names, copies);
      var n := 0;
      while n < |copies|
        invariant 0 <= n <= |copies|
        invariant Table(ObjectsOf(copies, n))
        invariant names.Values == old(names).Values && closed == old(closed)
        invariant AddedSoFar(old(names), names, copies, n)
      {
        AddCopy(old(names), copies, n);
        n := n + 1;
      }
    }

    method CollectCopies(parent: int, child: int) returns (copies: seq<Entry>)
      requires Valid() && parent != child
      modifies `refs
      ensures Table(ObjectsOf(copies, 0)) && Collected(entries, parent, child, nextSlot, copies)
    {
      hide RefsRight, KeysDiffer, Lists, Collected, ObjectsOf;
      copies := [];
      NothingCollected(entries, parent, child);
      var i := 0;
      while i < nextSlot
        invariant 0 <= i <= nextSlot
        invariant Table(ObjectsOf(copies, 0)) && Collected(entries, parent, child, i, copies)
      {
        if i in entries && entries[i].pid == parent {
          var e := Entry(child, entries[i].fd, entries[i].obj);
          MoreObjects(copies, e, 0);
          EntryCounted(entries, refs, ObjectsOf(copies, 0), i);
          ReferenceMore(entries, refs, ObjectsOf(copies, 0), e.obj);
          CollectMore(entries, parent, child, i, copies);
          refs := refs[e.obj := refs[e.obj] + 1];
          copies := copies + [e];
        } else {
          CollectSkip(entries, parent, child, i, copies);
        }
        i := i + 1;
      }
    }

    /** One copy is added; the child has no entry at its number. */
    method AddCopy(ghost shown: Names, copies: seq<Entry>, n: nat)
      requires n < |copies| && Table(ObjectsOf(copies, n)) && AddedSoFar(shown, names, copies, n)
      requires DistinctCopies(copies) && CopiesFrom(shown, copies)
      modifies `entries, `nextSlot, `refs, `names, `closed
      ensures Table(ObjectsOf(copies, n + 1)) && AddedSoFar(shown, names, copies, n + 1)
      ensures names.Values == old(names).Values && closed == old(closed)
    {
      hide RefsRight, KeysDiffer, Lists, CopiesFrom, DistinctCopies, Gone;
      var e := copies[n];
      var existing := FindEntry(e.fd, e.pid, false, ObjectsOf(copies, n));
      if existing != -1 { CloseEntry(existing, ObjectsOf(copies, n)); }
      OneFewer(copies, n);
      CopyAbsent(shown, old(names), copies, n);
      ValuesPut(old(names), EntryKey(e), e.obj);
      AddEntry(e.pid, e.fd, e.obj, ObjectsOf(copies, n));
    }
  }

  // ----- the copies on their way

  /** The objects of the copies from `n` on. */
  ghost function ObjectsOf(copies: seq<Entry>, n: nat): multiset<Obj>
    requires n <= |copies|
    decreases |copies| - n
  {
    if n == |copies| then multiset{} else multiset{copies[n].obj} + ObjectsOf(copies, n + 1)
  }

  lemma MoreObjects(copies: seq<Entry>, e: Entry, n: nat)
    requires n <= |copies|
    ensures ObjectsOf(copies + [e], n) == ObjectsOf(copies, n) + multiset{e.obj}
    decreases |copies| - n
  {
    if n < |copies| { MoreObjects(copies, e, n + 1); }
  }

  ghost predicate CopyFrom(m: Entries, parent: int, child: int, i: nat, e: Entry) {
    e.pid == child && exists j: nat :: j in m && j < i && m[j] == Entry(parent, e.fd, e.obj)
  }

  /** The copies are those of the parent's entries below slot `i`. */
  ghost predicate Collected(m: Entries, parent: int, child: int, i: nat, copies: seq<Entry>) {
    && (forall c :: 0 <= c < |copies| ==> CopyFrom(m, parent, child, i, copies[c]))
    && (forall j: nat :: j in m && j < i && m[j].pid == parent ==> Entry(child, m[j].fd, m[j].obj) in copies)
    && DistinctCopies(copies)
  }

  ghost predicate DistinctCopies(copies: seq<Entry>) {
    forall a, b :: 0 <= a < b < |copies| ==> EntryKey(copies[a]) != EntryKey(copies[b])
  }

  /** The copies are new to the names and show objects that are shown already. */
  ghost predicate CopiesFrom(shown: Names, copies: seq<Entry>) {
    forall c :: 0 <= c < |copies| ==>
      EntryKey(copies[c]) !in shown && copies[c].obj in shown.Values && copies[c].fd >= 0
  }

  ghost predicate AddedSoFar(shown: Names, now: Names, copies: seq<Entry>, n: nat)
    requires n <= |copies|
  {
    && (forall k :: k in shown ==> k in now && now[k] == shown[k])
    && (forall c :: 0 <= c < n ==> EntryKey(copies[c]) in now && now[EntryKey(copies[c])] == copies[c].obj)
    && (forall k :: k in now && k !in shown ==> exists c :: 0 <= c < n && EntryKey(copies[c]) == k)
  }

  lemma NothingCollected(m: Entries, parent: int, child: int)
    ensures Collected(m, parent, child, 0, []) && ObjectsOf([], 0) == multiset{}
  {}

  lemma CollectSkip(m: Entries, parent: int, child: int, i: nat, copies: seq<Entry>)
    requires Collected(m, parent, child, i, copies) && !(i in m && m[i].pid == parent)
    ensures Collected(m, parent, child, i + 1, copies)
  {
    forall c | 0 <= c < |copies| ensures CopyFrom(m, parent, child, i + 1, copies[c]) {
      assert CopyFrom(m, parent, child, i, copies[c]);
    }
  }

  lemma OneFewer(copies: seq<Entry>, n: nat)
    requires n < |copies|
    ensures copies[n].obj in ObjectsOf(copies, n)
    ensures ObjectsOf(copies, n) - multiset{copies[n].obj} == ObjectsOf(copies, n + 1)
  {}

  lemma EntryCounted(m: Entries, refs: map<Obj, int>, extra: multiset<Obj>, i: nat)
    requires RefsRight(m, refs, extra) && i in m
    ensures m[i].obj in refs && refs[m[i].obj] > 0
  {}

  lemma NothingAdded(shown: Names, copies: seq<Entry>)
    ensures AddedSoFar(shown, shown, copies, 0) && ObjectsOf(copies, |copies|) == multiset{}
  {}

  lemma ReferenceMore(m: Entries, refs: map<Obj, int>, extra: multiset<Obj>, obj: Obj)
    requires RefsRight(m, refs, extra) && obj in refs
    ensures RefsRight(m, refs[obj := refs[obj] + 1], extra + multiset{obj})
  {}

  lemma CollectMore(m: Entries, parent: int, child: int, i: nat, copies: seq<Entry>)
    requires KeysDiffer(m) && Collected(m, parent, child, i, copies) && i in m && m[i].pid == parent
    ensures Collected(m, parent, child, i + 1, copies + [Entry(child, m[i].fd, m[i].obj)])
  {
    var e := Entry(child, m[i].fd, m[i].obj);
    var more := copies + [e];
    assert m[i] == Entry(parent, e.fd, e.obj);
    forall c | 0 <= c < |copies|
      ensures CopyFrom(m, parent, child, i + 1, copies[c]) && EntryKey(copies[c]) != EntryKey(e)
    {
      assert CopyFrom(m, parent, child, i, copies[c]);
      var j: nat :| j in m && j < i && m[j] == Entry(parent, copies[c].fd, copies[c].obj);
      assert OneEntry(m, i, j);
    }
    forall j: nat | j in m && j < i + 1 && m[j].pid == parent
      ensures Entry(child, m[j].fd, m[j].obj) in more
    {
      if j == i { assert more[|copies|] == e; }
    }
  }

  lemma CollectedNew(m: Entries, names: Names, parent: int, child: int, i: nat, copies: seq<Entry>)
    requires Lists(m, names) && Collected(m, parent, child, i, copies) && Bare(names, child)
    requires forall k :: k in names ==> k.1 >= 0
    ensures CopiesFrom(names, copies) && DistinctCopies(copies)
  {
    forall c | 0 <= c < |copies|
      ensures EntryKey(copies[c]) !in names && copies[c].obj in names.Values && copies[c].fd >= 0
    {
      assert CopyFrom(m, parent, child, i, copies[c]);
      var j: nat :| j in m && j < i && m[j] == Entry(parent, copies[c].fd, copies[c].obj);
      assert names[EntryKey(m[j])] == copies[c].obj;
    }
  }

  lemma CopyAbsent(shown: Names, now: Names, copies: seq<Entry>, n: nat)
    requires n < |copies| && AddedSoFar(shown, now, copies, n) && DistinctCopies(copies) && CopiesFrom(shown, copies)
    ensures EntryKey(copies[n]) !in now && copies[n].fd >= 0
    ensures now.Values + {copies[n].obj} == now.Values
  {
    assert copies[n].obj in shown.Values;
    var k :| k in shown && shown[k] == copies[n].obj;
    assert now[k] == copies[n].obj;
  }

  /** With every copy added, the child shows what the parent does. */
  lemma AllAdded(m: Entries, shown: Names, now: Names, copies: seq<Entry>, parent: int, child: int, i: nat)
    requires Lists(m, shown) && Collected(m, parent, child, i, copies) && AddedSoFar(shown, now, copies, |copies|)
    requires (forall j :: j in m ==> j < i) && Bare(shown, child) && parent != child
    ensures ClonedNames(shown, now, parent, child)
  {
    forall k | k in now && k !in shown
      ensures k.0 == child && (parent, k.1) in shown && now[k] == shown[(parent, k.1)]
    {
      var c :| 0 <= c < |copies| && EntryKey(copies[c]) == k;
      assert CopyFrom(m, parent, child, i, copies[c]);
      var j: nat :| j in m && j < i && m[j] == Entry(parent, copies[c].fd, copies[c].obj);
      assert shown[EntryKey(m[j])] == copies[c].obj;
    }
    forall k | k in shown && k.0 == parent ensures (child, k.1) in now {
      assert Present(m, shown, k);
      var j :| j in m && EntryKey(m[j]) == k && m[j].obj == shown[k];
      var c :| 0 <= c < |copies| && copies[c] == Entry(child, m[j].fd, m[j].obj);
      assert EntryKey(copies[c]) == (child, k.1);
    }
  }

  lemma NewObject(m: Entries, refs: map<Obj, int>, obj: Obj)
    requires RefsRight(m, refs, multiset{}) && obj !in refs
    ensures RefsRight(m, refs[obj := 1], multiset{obj})
  {
    assert Pointing(m, obj) == {};
  }

  lemma TakeReference(m: Entries, refs: map<Obj, int>, obj: Obj)
    requires RefsRight(m, refs, multiset{}) && obj in refs
    ensures RefsRight(m, refs[obj := refs[obj] + 1], multiset{obj})
  {}

  lemma SurplusWrong(m: Entries, refs: map<Obj, int>, obj: Obj)
    requires RefsRight(m, refs, multiset{obj})
    ensures !RefsRight(m, refs, multiset{})
  {
    assert obj in multiset{obj};
  }

  /** Putting a shown object somewhere else loses at most what was there. */
  lemma OneStays(names: Names, from: Key, key: Key)
    requires from in names && from != key
    ensures var after := names[key := names[from]];
            && Gone(names, after) - {names[from]} == Gone(names, after)
            && multiset(names.Values) == multiset(after.Values) + multiset(Gone(names, after))
  {
    var after := names[key := names[from]];
    assert after[from] == names[from];
    if key in names {
      PutReplaces(names, key, from);
    } else {
      ValuesKept(names, key, from);
    }
  }

  lemma GoneNone(names: Names)
    ensures Gone(names, names) == {}
  {}

  lemma GoneOnPut(names: Names, key: Key, obj: Obj)
    requires key !in names
    ensures Gone(names, names[key := obj]) == {}
  {
    ValuesPut(names, key, obj);
  }

  /** What an install replaces is closed exactly when no other name shows it. */
  lemma ReplacedEntry(m: Entries, refs: map<Obj, int>, names: Names, i: nat, obj: Obj)
    requires RefsRight(m, refs, multiset{obj}) && Lists(m, names) && KeysDiffer(m) && i in m
    ensures m[i].obj in refs
    ensures Gone(names, names[EntryKey(m[i]) := obj]) - {obj} == if refs[m[i].obj] == 1 then {m[i].obj} else {}
  {
    var o, key := m[i].obj, EntryKey(m[i]);
    var rest, after := names - {key}, names[key := obj];
    EraseLists(m, names, i);
    assert i in Pointing(m, o);
    GoneAtMost(names, key);
    forall p | p in rest.Values ensures p in after.Values {
      var k :| k in rest && rest[k] == p;
      assert after[k] == p;
    }
    forall p | p in after.Values && p != obj ensures p in rest.Values {
      var k :| k in after && after[k] == p;
      assert rest[k] == p;
    }
    ErasePoints(m, i, o);
    assert Pointing(m, o) == {i} + Pointing(m - {i}, o);
    ShownIffPointed(m - {i}, rest, o);
  }

  lemma ShownIffPointed(m: Entries, names: Names, o: Obj)
    requires Lists(m, names)
    ensures o in names.Values <==> Pointing(m, o) != {}
  {
    if Pointing(m, o) != {} {
      var j :| j in Pointing(m, o);
      assert names[EntryKey(m[j])] == o;
    }
    if o in names.Values {
      var k :| k in names && names[k] == o;
      assert Present(m, names, k);
      var j :| j in m && EntryKey(m[j]) == k && m[j].obj == names[k];
      assert j in Pointing(m, o);
    }
  }

  /** The last reference is the last name. */
  lemma LastEntry(m: Entries, refs: map<Obj, int>, names: Names, i: nat)
    requires RefsRight(m, refs, multiset{}) && Lists(m, names) && KeysDiffer(m) && i in m
    ensures var rest := names - {EntryKey(m[i])};
            && m[i].obj in refs
            && Gone(names, rest) == (if refs[m[i].obj] == 1 then {m[i].obj} else {})
            && multiset(names.Values) == multiset(rest.Values) + multiset(Gone(names, rest))
  {
    var key := EntryKey(m[i]);
    EraseRefs(m, refs, multiset{}, i);
    EraseLists(m, names, i);
    CountedIffShown(m - {i}, Dropped(refs, m[i].obj), names - {key}, m[i].obj);
    GoneAtMost(names, key);
    LiveAfterDrop(names, key, refs[m[i].obj] == 1, m[i].obj);
  }

  lemma GoneAtMost(names: Names, key: Key)
    requires key in names
    ensures Gone(names, names - {key}) == if names[key] in (names - {key}).Values then {} else {names[key]}
  {
    var rest := names - {key};
    forall o | o in names.Values && o != names[key] ensures o in rest.Values {
      var k :| k in names && names[k] == o;
      assert rest[k] == o;
    }
    assert names[key] in names.Values;
  }

  // ----- the two tables give the same service

  lemma {:induction false} LeastSame(names: Names, pid: int, c: nat)
    requires c <= SLOTS && LeastFd(names, pid, c, SLOTS) < SLOTS
    ensures LeastFd(names, pid, c, LIMIT) == LeastFd(names, pid, c, SLOTS)
    decreases SLOTS - c
  {
    if (pid, c) in names { LeastSame(names, pid, c + 1); }
  }

  /** Whatever the runtime table grants, the hosted table grants identically. */
  lemma SameService(names: Names, call: Call)
    requires Served(names, call, SLOTS).1 != NoMemory
    ensures Served(names, call, LIMIT) == Served(names, call, SLOTS)
  {
    match call {
      case Opens(pid, obj) => LeastSame(names, pid, FIRST_FD);
      case Dups(pid, fd) => if Resolve(names, pid, fd, true).Some? { LeastSame(names, pid, FIRST_FD); }
      case _ =>
    }
  }
}
