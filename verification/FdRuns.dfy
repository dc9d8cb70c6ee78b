/** Whole runs of descriptor calls. The runtime's table shows one map of names for as long as every
    call is granted, and closes every object once, with its last name; the hosted kernel's table
    serves the same map and closes the same objects. */
module FdRuns {
  import opened FdTable
  import opened FdRuntime
  import FdHosted

  /** The table and the pipes, and the objects opened and closed so far. */
  datatype Books = Books(table: seq<Slot>, pipes: seq<Pipe>, acquired: seq<Obj>, closed: seq<Obj>)

  ghost predicate Kept(b: Books, names: Names) {
    Whole(b.table, b.pipes, names, multiset(b.acquired), multiset(b.closed))
  }

  /** An empty table, before any call. */
  function Start(): Books { Books(seq(SLOTS, _ => EMPTY), seq(PIPES, _ => NO_PIPE), [], []) }

  lemma StartKept()
    ensures Kept(Start(), map[])
  {
    EmptySound(Start().table);
    forall q | 0 <= q < PIPES ensures PipeMatches(Start().pipes[q], q, {}) {}
  }

  // ----- one call

  /** The objects that a call closes, in order; a clone is made into a process without descriptors. */
  ghost function ClosedBy(s: seq<Slot>, call: Call): seq<Obj> {
    match call
    case Closes(pid, fd) => ListOf(LastOf(s, Find(s, fd, pid, true)))
    case Dup2s(pid, fd, to) =>
      var o := OwnerIndex(s, Find(s, fd, pid, true));
      if to < 0 || fd == to || !(0 <= o < |s|) then [] else ListOf(Replaced(Bump(s, o), to, pid))
    case Exits(pid) => ExitFrom(s, pid, 0).1
    case _ => []
  }

  ghost function ReleasedAll(pipes: seq<Pipe>, objs: seq<Obj>): seq<Pipe>
    decreases |objs|
  {
    if objs == [] then pipes else ReleasedAll(ReleaseObject(pipes, objs[0]), objs[1..])
  }

  ghost function After(b: Books, call: Call): (r: Books)
    requires |b.table| == SLOTS
    ensures |r.table| == SLOTS
  {
    Books(TableStep(b.table, call).table,
          ReleasedAll(b.pipes, ClosedBy(b.table, call)),
          if call.Opens? then b.acquired + [call.obj] else b.acquired,
          b.closed + ClosedBy(b.table, call))
  }

  datatype Kernel = Native | OnHost

  /** The service of the two kernels. The native one answers dup2 onto the same number without a
      look. */
  function Serves(kernel: Kernel, names: Names, call: Call): (Names, Result) {
    if kernel.OnHost? then Served(names, call, FdHosted.LIMIT)
    else if call.Dup2s? && call.to >= 0 && call.fd == call.to then (names, Fd(call.to))
    else Served(names, call, SLOTS)
  }

  // ----- the service, as a process sees it

  /** What a process finds under a number: its own, or else the global one. */
  function Finds(names: Names, pid: int, fd: int): Option<Obj> {
    if fd < 0 then None
    else if (pid, fd) in names then Some(names[(pid, fd)])
    else if (0, fd) in names then Some(names[(0, fd)])
    else None
  }

  /** The object is put under the least number from 3 on that the process does not use. */
  ghost predicate GivesLowest(names: Names, pid: int, obj: Obj, limit: nat, after: (Names, Result)) {
    if forall n :: 3 <= n < limit ==> (pid, n) in names then after == (names, NoMemory)
    else exists n :: 3 <= n < limit && (pid, n) !in names && (forall m :: 3 <= m < n ==> (pid, m) in names)
                     && after == (names[(pid, n) := obj], Fd(n))
  }

  ghost predicate Copies(names: Names, after: Names, parent: int, child: int) {
    forall p: int, n: int ::
      && ((p, n) in after <==> (p, n) in names || (p == child && (parent, n) in names))
      && ((p, n) in after ==>
            after[(p, n)] == if p == child && (parent, n) in names then names[(parent, n)] else names[(p, n)])
  }

  ghost predicate Drops(names: Names, after: Names, pid: int) {
    forall p: int, n: int ::
      ((p, n) in after <==> (p, n) in names && p != pid) && ((p, n) in after ==> after[(p, n)] == names[(p, n)])
  }

  ghost predicate ServedAs(names: Names, call: Call, limit: nat, after: (Names, Result)) {
    match call
    case Opens(pid, obj) => GivesLowest(names, pid, obj, limit, after)
    case Closes(pid, fd) =>
      if Finds(names, pid, fd) == None then after == (names, NotFound)
      else after == (names - {if (pid, fd) in names then (pid, fd) else (0, fd)}, Done)
    case Dups(pid, fd) =>
      if Finds(names, pid, fd) == None then after == (names, NotFound)
      else GivesLowest(names, pid, Finds(names, pid, fd).value, limit, after)
    case Dup2s(pid, fd, to) =>
      if to < 0 then after == (names, InvalidArgument)
      else if Finds(names, pid, fd) == None then after == (names, NotFound)
      else after == (if fd == to then names else names[(pid, to) := Finds(names, pid, fd).value], Fd(to))
    case Clones(parent, child) =>
      if parent <= 0 || child <= 0 || parent == child then after == (names, InvalidArgument)
      else after.1 == Done && Copies(names, after.0, parent, child)
    case Exits(pid) => after.1 == Done && Drops(names, after.0, pid)
  }

  /** Every call does to what processes find what its name says. */
  lemma ServiceMeans(names: Names, call: Call, limit: nat)
    requires limit >= 3
    ensures ServedAs(names, call, limit, Served(names, call, limit))
  {
    match call {
      case Opens(pid, obj) => LowestGiven(names, pid, obj, limit);
      case Dups(pid, fd) =>
        if Finds(names, pid, fd).Some? { LowestGiven(names, pid, Finds(names, pid, fd).value, limit); }
      case _ =>
    }
  }

  lemma LowestGiven(names: Names, pid: int, obj: Obj, limit: nat)
    requires limit >= 3
    ensures GivesLowest(names, pid, obj, limit, Shown(names, pid, obj, limit))
  {
    var n := LeastFd(names, pid, FIRST_FD, limit);
    if n < limit { assert Shown(names, pid, obj, limit) == (names[(pid, n) := obj], Fd(n)); }
  }

  /** An open brings a new object, and a clone is made into a process without descriptors. */
  ghost predicate Proper(names: Names, call: Call) {
    match call
    case Opens(pid, obj) => pid >= 0 && obj.File? && obj !in names.Values
    case Closes(pid, _) => pid >= 0
    case Dups(pid, _) => pid >= 0
    case Dup2s(pid, _, _) => pid >= 0
    case Clones(_, child) => Bare(names, child)
    case Exits(pid) => pid >= 0
  }

  /** There is room for what the call asks, and dup2 is not asked to replace the owner. */
  ghost predicate Granted(s: seq<Slot>, names: Names, call: Call) {
    match call
    case Opens(pid, _) => HasRoom(s, names, pid)
    case Dups(pid, fd) => Resolve(names, pid, fd, true).Some? ==> HasRoom(s, names, pid)
    case Dup2s(pid, fd, to) =>
      to >= 0 && fd != to && Resolve(names, pid, fd, true).Some? ==> Dup2Room(s, pid, fd, to)
    case Clones(parent, child) => parent > 0 && child > 0 && parent != child ==> SlotsFor(s, parent)
    case _ => true
  }

  /** The books stay kept across a call exactly when it is granted. It then answers from the map and
      closes what no name shows any more, once. */
  ghost predicate StepRight(b: Books, names: Names, call: Call)
    requires |b.table| == SLOTS
  {
    var after := Serves(Native, names, call);
    && (Kept(After(b, call), after.0) <==> Granted(b.table, names, call))
    && (Granted(b.table, names, call) ==>
          && TableStep(b.table, call).result == after.1
          && multiset(ClosedBy(b.table, call)) == multiset(Gone(names, after.0)))
  }

  lemma NoLog(b: Books, call: Call)
    requires |b.table| == SLOTS && ClosedBy(b.table, call) == []
    ensures After(b, call).pipes == b.pipes && After(b, call).closed == b.closed
  {}

  lemma KeptFacts(b: Books, names: Names)
    requires Kept(b, names)
    ensures Sound(b.table) && Shows(b.table, names) && |b.table| == SLOTS
  {}

  lemma OpenLoses(names: Names, call: Call)
    requires call.Opens?
    ensures Gone(names, Served(names, call, SLOTS).0) == {}
  {
    var fd := LeastFd(names, call.pid, FIRST_FD, SLOTS);
    if fd < SLOTS { ValuesPut(names, (call.pid, fd), call.obj); }
  }

  lemma OpenRight(b: Books, names: Names, call: Call)
    requires Kept(b, names) && Proper(names, call) && call.Opens?
    ensures StepRight(b, names, call)
  {
    hide Whole, Sound, Shows, HasRoom, Served, Gone, Replaced;
    var Opens(pid, obj) := call;
    KeptFacts(b, names);
    NoLog(b, call);
    var after := Served(names, call, SLOTS).0;
    OpenWhole(b.table, b.pipes, names, multiset(b.acquired), multiset(b.closed), pid, obj);
    OpenInstalls(b.table, names, pid, obj);
    if HasRoom(b.table, names, pid) {
      OpenLoses(names, call);
    } else if Kept(After(b, call), after) {
      KeptFacts(After(b, call), after);
      ShowsOne(b.table, names, after);
    }
    assert multiset(b.acquired + [obj]) == multiset(b.acquired) + multiset{obj};
  }

  lemma ReleaseOne(pipes: seq<Pipe>, obj: Option<Obj>)
    ensures ReleasedAll(pipes, ListOf(obj)) == ReleasedWith(pipes, obj)
  {
    if obj.Some? { assert ReleasedAll(ReleaseObject(pipes, obj.value), []) == ReleaseObject(pipes, obj.value); }
  }

  lemma LogOne(closed: seq<Obj>, obj: Option<Obj>, gone: set<Obj>)
    requires ClosedWith(multiset(closed), obj) == multiset(closed) + multiset(gone)
    ensures multiset(closed + ListOf(obj)) == ClosedWith(multiset(closed), obj)
    ensures multiset(ListOf(obj)) == multiset(gone)
  {
    assert multiset(closed + ListOf(obj)) == multiset(closed) + multiset(ListOf(obj));
    forall o ensures multiset(ListOf(obj))[o] == multiset(gone)[o] {
      assert ClosedWith(multiset(closed), obj)[o] == multiset(closed)[o] + multiset(ListOf(obj))[o];
      assert (multiset(closed) + multiset(gone))[o] == multiset(closed)[o] + multiset(gone)[o];
    }
  }

  lemma NothingGone(names: Names, after: Names)
    requires names.Values == after.Values
    ensures Gone(names, after) == {}
  {}

  lemma CloseRight(b: Books, names: Names, call: Call)
    requires Kept(b, names) && Proper(names, call) && call.Closes?
    ensures StepRight(b, names, call)
  {
    hide Whole, Sound, Shows, Gone, Final, CloseAt, Find;
    KeptFacts(b, names);
    var Closes(pid, fd) := call;
    var i := Find(b.table, fd, pid, true);
    FindResolves(b.table, fd, pid, true, names, -1);
    if i == -1 {
      NothingGone(names, names);
      NoLog(b, call);
    } else {
      var lost := LastOf(b.table, i);
      CloseWhole(b.table, b.pipes, names, multiset(b.acquired), multiset(b.closed), i);
      ReleaseOne(b.pipes, lost);
      LogOne(b.closed, lost, Gone(names, names - {KeyOf(b.table, i)}));
    }
  }

  lemma DupRight(b: Books, names: Names, call: Call)
    requires Kept(b, names) && Proper(names, call) && call.Dups?
    ensures StepRight(b, names, call)
  {
    var Dups(pid, fd) := call;
    FindResolves(b.table, fd, pid, true, names, -1);
    NothingGone(names, names);
    if Resolve(names, pid, fd, true).Some? {
      DupServed(b.table, names, pid, fd);
      DupWhole(b.table, b.pipes, names, multiset(b.acquired), multiset(b.closed), pid, fd);
    }
  }

  lemma Dup2Right(b: Books, names: Names, call: Call)
    requires Kept(b, names) && Proper(names, call) && call.Dup2s?
    ensures StepRight(b, names, call)
  {
    var Dup2s(pid, fd, to) := call;
    FindResolves(b.table, fd, pid, true, names, -1);
    NothingGone(names, names);
    if to >= 0 && fd != to && Resolve(names, pid, fd, true).Some? {
      Dup2Whole(b.table, b.pipes, names, multiset(b.acquired), multiset(b.closed), pid, fd, to);
      var o := OwnerIndex(b.table, Find(b.table, fd, pid, true));
      var lost := Replaced(Bump(b.table, o), to, pid);
      ReleaseOne(b.pipes, lost);
      if Dup2Room(b.table, pid, fd, to) { LogOne(b.closed, lost, Gone(names, Served(names, call, SLOTS).0)); }
    }
  }

  lemma CloneRight(b: Books, names: Names, call: Call)
    requires Kept(b, names) && Proper(names, call) && call.Clones?
    ensures StepRight(b, names, call)
  {
    hide Whole, Sound, Shows, SlotsFor, Bare, ClonedMap, Gone, CloneFrom, AllPending;
    var Clones(parent, child) := call;
    NothingGone(names, names);
    KeptFacts(b, names);
    NoLog(b, call);
    if Kept(After(b, call), Served(names, call, SLOTS).0) { KeptFacts(After(b, call), Served(names, call, SLOTS).0); }
    if parent > 0 && child > 0 && parent != child {
      CloneWhole(b.table, b.pipes, names, multiset(b.acquired), multiset(b.closed), parent, child);
      ClonedValues(names, parent, child);
      NothingGone(names, ClonedMap(names, parent, child));
    }
  }

  /** The table, the pipes and the log of an exit, from slot `i` on. */
  ghost function Exited(b: Books, pid: int, i: nat): Books
    requires i <= |b.table|
  {
    var (table, log) := ExitFrom(b.table, pid, i);
    Books(table, ReleasedAll(b.pipes, log), b.acquired, b.closed + log)
  }

  ghost function ClosedSlot(b: Books, i: int): (r: Books)
    requires 0 <= i < |b.table|
    ensures |r.table| == |b.table|
  {
    var lost := LastOf(b.table, i);
    Books(CloseAt(b.table, i), ReleasedWith(b.pipes, lost), b.acquired, b.closed + ListOf(lost))
  }

  lemma ClosedSlotKept(b: Books, names: Names, i: int)
    requires Kept(b, names) && Named(b.table, i)
    ensures Kept(ClosedSlot(b, i), names - {KeyOf(b.table, i)})
  {
    CloseWhole(b.table, b.pipes, names, multiset(b.acquired), multiset(b.closed), i);
    LogOne(b.closed, LastOf(b.table, i), Gone(names, names - {KeyOf(b.table, i)}));
  }

  lemma ExitStep(b: Books, pid: int, i: nat)
    requires i < |b.table| && b.table[i].used && b.table[i].pid == pid
    ensures Exited(b, pid, i) == Exited(ClosedSlot(b, i), pid, i + 1)
  {
    var lost := LastOf(b.table, i);
    var rest := ExitFrom(CloseAt(b.table, i), pid, i + 1).1;
    assert b.closed + (ListOf(lost) + rest) == (b.closed + ListOf(lost)) + rest;
    if lost.Some? { assert (ListOf(lost) + rest)[1..] == rest; } else { assert ListOf(lost) + rest == rest; }
  }

  lemma UsedIsNamed(s: seq<Slot>, i: int, pid: int)
    requires Sound(s) && Used(s, i) && s[i].pid == pid
    ensures Named(s, i) && pid >= 0 && KeyOf(s, i).0 == pid
  {
    assert Attached(s, i, -1);
  }

  /** Closing a process's descriptors slot by slot takes away all of its names and no other. */
  lemma {:induction false} ExitKept(b: Books, names: Names, now: Names, pid: int, i: nat)
    requires Kept(b, now) && pid >= 0 && i <= |b.table| && NoneOf(b.table, pid, i) && Narrowed(names, now, pid)
    ensures Kept(Exited(b, pid, i), WithoutProcess(names, pid))
    decreases |b.table| - i
  {
    hide Whole, Narrowed, NoneOf, CloseAt;
    KeptFacts(b, now);
    if i == |b.table| {
      NarrowedAll(b.table, names, now, pid);
      assert b.closed + [] == b.closed;
    } else if b.table[i].used && b.table[i].pid == pid {
      UsedIsNamed(b.table, i, pid);
      ClosedSlotKept(b, now, i);
      NoneAfterClose(b.table, pid, i);
      NarrowMore(names, now, pid, KeyOf(b.table, i));
      ExitStep(b, pid, i);
      ExitKept(ClosedSlot(b, i), names, now - {KeyOf(b.table, i)}, pid, i + 1);
    } else {
      NoneMore(b.table, pid, i);
      ExitKept(b, names, now, pid, i + 1);
    }
  }

  lemma ExitRight(b: Books, names: Names, call: Call)
    requires Kept(b, names) && Proper(names, call) && call.Exits?
    ensures StepRight(b, names, call)
  {
    var pid := call.pid;
    var log := ExitFrom(b.table, pid, 0).1;
    NarrowSelf(names, pid);
    NoneYet(b.table, pid);
    ExitKept(b, names, names, pid, 0);
    assert multiset(b.closed + log) == multiset(b.closed) + multiset(log);
    GoneBetween(names, WithoutProcess(names, pid), pid, multiset(b.acquired), multiset(b.closed),
        multiset(b.closed + log));
    SameRest(multiset(b.closed), multiset(log), multiset(Gone(names, WithoutProcess(names, pid))));
  }

  lemma SameRest(a: multiset<Obj>, b: multiset<Obj>, c: multiset<Obj>)
    requires a + b == a + c
    ensures b == c
  {
    forall o ensures b[o] == c[o] { assert (a + b)[o] == a[o] + b[o] && (a + c)[o] == a[o] + c[o]; }
  }

  /** Every call keeps the books exactly when it is granted. */
  lemma StepIsRight(b: Books, names: Names, call: Call)
    requires Kept(b, names) && Proper(names, call)
    ensures StepRight(b, names, call)
  {
    match call {
      case Opens(_, _) => OpenRight(b, names, call);
      case Closes(_, _) => CloseRight(b, names, call);
      case Dups(_, _) => DupRight(b, names, call);
      case Dup2s(_, _, _) => Dup2Right(b, names, call);
      case Clones(_, _) => CloneRight(b, names, call);
      case Exits(_) => ExitRight(b, names, call);
    }
  }

  // ----- runs

  ghost function Run(b: Books, calls: seq<Call>): (r: Books)
    requires |b.table| == SLOTS
    ensures |r.table| == SLOTS
    decreases |calls|
  {
    if calls == [] then b else Run(After(b, calls[0]), calls[1..])
  }

  /** What the names come to, and what each call answers. */
  function ServedAll(kernel: Kernel, names: Names, calls: seq<Call>): (Names, seq<Result>)
    decreases |calls|
  {
    if calls == [] then (names, [])
    else
      var one := Serves(kernel, names, calls[0]);
      var rest := ServedAll(kernel, one.0, calls[1..]);
      (rest.0, [one.1] + rest.1)
  }

  ghost function Answers(b: Books, calls: seq<Call>): seq<Result>
    requires |b.table| == SLOTS
    decreases |calls|
  {
    if calls == [] then [] else [TableStep(b.table, calls[0]).result] + Answers(After(b, calls[0]), calls[1..])
  }

  ghost predicate ProperRun(kernel: Kernel, names: Names, calls: seq<Call>)
    decreases |calls|
  {
    calls != [] ==>
      Proper(names, calls[0]) && ProperRun(kernel, Serves(kernel, names, calls[0]).0, calls[1..])
  }

  ghost predicate GrantedRun(b: Books, names: Names, calls: seq<Call>)
    requires |b.table| == SLOTS
    decreases |calls|
  {
    calls != [] ==>
      Granted(b.table, names, calls[0]) && GrantedRun(After(b, calls[0]), Serves(Native, names, calls[0]).0, calls[1..])
  }

  ghost predicate KeptRun(b: Books, names: Names, calls: seq<Call>)
    requires |b.table| == SLOTS
    decreases |calls|
  {
    Kept(b, names) && (calls != [] ==> KeptRun(After(b, calls[0]), Serves(Native, names, calls[0]).0, calls[1..]))
  }

  /** Along any run, the table stays sound and goes on showing the map, with every object accounted
      for, exactly when every call is granted. */
  lemma {:induction false} RunKeepsIff(b: Books, names: Names, calls: seq<Call>)
    requires Kept(b, names) && ProperRun(Native, names, calls)
    ensures KeptRun(b, names, calls) <==> GrantedRun(b, names, calls)
    decreases |calls|
  {
    if calls != [] {
      StepIsRight(b, names, calls[0]);
      if Granted(b.table, names, calls[0]) {
        RunKeepsIff(After(b, calls[0]), Serves(Native, names, calls[0]).0, calls[1..]);
      }
    }
  }

  /** So it is from an empty table. */
  lemma RunFromStartIff(calls: seq<Call>)
    requires ProperRun(Native, map[], calls)
    ensures KeptRun(Start(), map[], calls) <==> GrantedRun(Start(), map[], calls)
  {
    StartKept();
    RunKeepsIff(Start(), map[], calls);
  }

  /** A run in which every call is granted answers from the map alone. */
  lemma {:induction false} RunAnswers(b: Books, names: Names, calls: seq<Call>)
    requires Kept(b, names) && ProperRun(Native, names, calls) && GrantedRun(b, names, calls)
    ensures (ServedAll(Native, names, calls).0, Answers(b, calls)) == ServedAll(Native, names, calls)
    ensures Kept(Run(b, calls), ServedAll(Native, names, calls).0)
    decreases |calls|
  {
    if calls != [] {
      StepIsRight(b, names, calls[0]);
      RunAnswers(After(b, calls[0]), Serves(Native, names, calls[0]).0, calls[1..]);
    }
  }

  /** The part of the run after `n` calls. */
  lemma {:induction false} RunSplits(b: Books, names: Names, calls: seq<Call>, n: nat)
    requires Kept(b, names) && ProperRun(Native, names, calls) && GrantedRun(b, names, calls) && n <= |calls|
    ensures var c, m := Run(b, calls[..n]), ServedAll(Native, names, calls[..n]).0;
            Kept(c, m) && ProperRun(Native, m, calls[n..]) && GrantedRun(c, m, calls[n..])
    decreases n
  {
    hide Whole, Sound, Shows, TableStep, Gone, ClosedBy, Serves, Granted, Proper;
    KeptFacts(b, names);
    if n == 0 {
      assert calls[..0] == [] && calls[0..] == calls;
    } else {
      StepIsRight(b, names, calls[0]);
      RunSplits(After(b, calls[0]), Serves(Native, names, calls[0]).0, calls[1..], n - 1);
      assert calls[..n][1..] == calls[1..][..n - 1] && calls[n..] == calls[1..][n - 1..];
    }
  }

  lemma {:induction false} RunExtends(b: Books, names: Names, calls: seq<Call>, n: nat)
    requires |b.table| == SLOTS && n < |calls|
    ensures Run(b, calls[..n + 1]) == After(Run(b, calls[..n]), calls[n])
    ensures ServedAll(Native, names, calls[..n + 1]).0 ==
            Serves(Native, ServedAll(Native, names, calls[..n]).0, calls[n]).0
    decreases n
  {
    hide TableStep, ClosedBy, Serves;
    if n > 0 {
      RunExtends(After(b, calls[0]), Serves(Native, names, calls[0]).0, calls[1..], n - 1);
      assert calls[..n][1..] == calls[1..][..n - 1] && calls[..n + 1][1..] == calls[1..][..n];
    } else {
      assert calls[..1] == [calls[0]] && calls[..1][1..] == [] && calls[..0] == [];
    }
  }

  /** Each call of the run closes, once each, the objects whose last name it takes away. */
  lemma ClosesWithLastName(b: Books, names: Names, calls: seq<Call>, n: nat)
    requires Kept(b, names) && ProperRun(Native, names, calls) && GrantedRun(b, names, calls) && n < |calls|
    ensures var before, after := ServedAll(Native, names, calls[..n]).0, ServedAll(Native, names, calls[..n + 1]).0;
            var c, d := Run(b, calls[..n]).closed, Run(b, calls[..n + 1]).closed;
            c <= d && multiset(d[|c|..]) == multiset(Gone(before, after))
  {
    var c, m := Run(b, calls[..n]), ServedAll(Native, names, calls[..n]).0;
    RunSplits(b, names, calls, n);
    RunExtends(b, names, calls, n);
    StepIsRight(c, m, calls[n]);
    assert (c.closed + ClosedBy(c.table, calls[n]))[|c.closed|..] == ClosedBy(c.table, calls[n]);
  }

  /** An object that was opened once has been closed exactly once if no name shows it, and never
      otherwise. */
  lemma ClosedExactlyOnce(b: Books, names: Names, calls: seq<Call>, obj: Obj)
    requires Kept(b, names) && ProperRun(Native, names, calls) && GrantedRun(b, names, calls)
    requires multiset(Run(b, calls).acquired)[obj] == 1
    ensures multiset(Run(b, calls).closed)[obj] == if obj in ServedAll(Native, names, calls).0.Values then 0 else 1
  {
    RunAnswers(b, names, calls);
    var c, m := Run(b, calls), ServedAll(Native, names, calls).0;
    assert multiset(c.acquired)[obj] == multiset(c.closed)[obj] + multiset(m.Values)[obj];
  }

  // ----- the native kernel's calls run this way

  /** The runtime's fields are these books. */
  ghost predicate Holds(r: Runtime, b: Books)
    reads r, r.fds, r.pipes
  {
    && r.fds[..] == b.table && r.pipes[..] == b.pipes
    && r.acquired == multiset(b.acquired) && r.closed == multiset(b.closed)
  }

  lemma PipesOne(p: seq<Pipe>, q: seq<Pipe>, live: set<Obj>)
    requires PipesMatch(p, live) && PipesMatch(q, live)
    ensures p == q
  {
    forall i | 0 <= i < |p| ensures p[i] == q[i] { assert PipeMatches(p[i], i, live) && PipeMatches(q[i], i, live); }
  }

  /** What a granted call leaves is the one state that fits the map, the objects opened and the
      table. */
  lemma HoldsAfter(r: Runtime, b: Books, names: Names, call: Call)
    requires Kept(b, names) && Proper(names, call) && Granted(b.table, names, call)
    requires r.Valid() && r.names == Serves(Native, names, call).0 && r.fds[..] == TableStep(b.table, call).table
    requires r.acquired == multiset(After(b, call).acquired)
    ensures Holds(r, After(b, call))
  {
    hide Attached, Counts, OneOwner, OneKey, Shows, PipesMatch, TableStep, Serves, Granted, Proper, ClosedBy;
    StepIsRight(b, names, call);
    var c := After(b, call);
    PipesOne(r.pipes[..], c.pipes, r.names.Values);
    SameClosed(r.acquired, r.closed, multiset(c.closed), multiset(r.names.Values));
  }

  lemma SameClosed(all: multiset<Obj>, a: multiset<Obj>, b: multiset<Obj>, live: multiset<Obj>)
    requires all == a + live && all == b + live
    ensures a == b
  {
    forall o ensures a[o] == b[o] { assert all[o] == a[o] + live[o] && all[o] == b[o] + live[o]; }
  }

  lemma KeptNow(r: Runtime, b: Books)
    requires r.Valid() && Holds(r, b)
    ensures Kept(b, r.names) && |b.table| == SLOTS
  {}

  method Perform(r: Runtime, call: Call, ghost b: Books) returns (answer: Result)
    requires r.Valid() && Holds(r, b) && Proper(r.names, call)
    modifies r, r.fds, r.pipes
    ensures |b.table| == SLOTS && Installed(r.fds[..], answer) == TableStep(b.table, call)
    ensures Granted(b.table, old(r.names), call) ==>
              r.Valid() && Holds(r, After(b, call)) && r.names == Serves(Native, old(r.names), call).0
  {
    hide Whole, Shows, PipesMatch, TableStep, Gone, ClosedBy, Served, HasRoom, Dup2Room, SlotsFor, Resolve, Bare,
         ReleasedAll;
    KeptNow(r, b);
    RefusedServes(r.names, call);
    ghost var names := r.names;
    match call {
      case Opens(pid, obj) =>
        answer := r.OpenFd(pid, obj);
        assert r.acquired == multiset(b.acquired + [obj]);
      case Closes(pid, fd) => answer := r.CloseFd(pid, fd);
      case Dups(pid, fd) => answer := r.DupFd(pid, fd);
      case Dup2s(pid, fd, to) => answer := r.Dup2Fd(pid, fd, to);
      case Clones(parent, child) => answer := r.CloneProcessFds(parent, child);
      case Exits(pid) =>
        ExitTable(b.table, names, pid);
        r.CloseProcessFds(pid);
        answer := Done;
    }
    if Granted(b.table, names, call) { HoldsAfter(r, b, names, call); }
  }

  lemma RefusedServes(names: Names, call: Call)
    ensures call.Dup2s? && (call.to < 0 || Resolve(names, call.pid, call.fd, true).None?) ==>
              Served(names, call, SLOTS).0 == names
    ensures call.Clones? && (call.parent <= 0 || call.child <= 0 || call.parent == call.child) ==>
              Served(names, call, SLOTS).0 == names
  {}

  lemma ExitTable(s: seq<Slot>, names: Names, pid: int)
    requires |s| == SLOTS
    ensures TableStep(s, Exits(pid)) == Installed(ExitFrom(s, pid, 0).0, Done)
    ensures Served(names, Exits(pid), SLOTS).0 == WithoutProcess(names, pid)
  {}

  /** A run of granted calls answers from the map and closes what lost its last name on the way. */
  method Replay(r: Runtime, calls: seq<Call>, ghost b: Books) returns (answers: seq<Result>)
    requires r.Valid() && Holds(r, b) && ProperRun(Native, r.names, calls)
    requires |b.table| == SLOTS && GrantedRun(b, r.names, calls)
    modifies r, r.fds, r.pipes
    ensures r.Valid() && Holds(r, Run(b, calls))
    ensures (r.names, answers) == ServedAll(Native, old(r.names), calls)
    decreases |calls|
  {
    hide Whole, Shows, PipesMatch, TableStep, Gone, ClosedBy, Serves, Granted, Proper;
    if calls == [] { return []; }
    KeptNow(r, b);
    StepIsRight(b, r.names, calls[0]);
    var first := Perform(r, calls[0], b);
    var rest := Replay(r, calls[1..], After(b, calls[0]));
    answers := [first] + rest;
  }

  // ----- the hosted kernel

  /** The hosted table only runs out of numbers. */
  predicate HostGrants(names: Names, call: Call) {
    match call
    case Opens(pid, _) => LeastFd(names, pid, FIRST_FD, FdHosted.LIMIT) < FdHosted.LIMIT
    case Dups(pid, fd) =>
      Resolve(names, pid, fd, true).Some? ==> LeastFd(names, pid, FIRST_FD, FdHosted.LIMIT) < FdHosted.LIMIT
    case _ => true
  }

  predicate HostGrantsRun(names: Names, calls: seq<Call>)
    decreases |calls|
  {
    calls != [] ==> HostGrants(names, calls[0]) && HostGrantsRun(Serves(OnHost, names, calls[0]).0, calls[1..])
  }

  /** What loses its last name along a run, call by call. */
  function GoneAlong(kernel: Kernel, names: Names, calls: seq<Call>): multiset<Obj>
    decreases |calls|
  {
    if calls == [] then multiset{}
    else
      var after := Serves(kernel, names, calls[0]).0;
      multiset(Gone(names, after)) + GoneAlong(kernel, after, calls[1..])
  }

  /** A name added shows what is shown already, or something new. */
  lemma NoneLost(names: Names, call: Call, limit: nat)
    requires Proper(names, call) && (call.Opens? || call.Dups? || call.Clones?)
    ensures Gone(names, Served(names, call, limit).0) == {}
  {
    match call {
      case Opens(pid, obj) => if FIRST_FD <= limit {
        PutLoses(names, (pid, LeastFd(names, pid, FIRST_FD, limit)), obj);
      }
      case Dups(pid, fd) =>
        var k := Resolve(names, pid, fd, true);
        if k.Some? && FIRST_FD <= limit {
          PutLoses(names, (pid, LeastFd(names, pid, FIRST_FD, limit)), names[k.value]);
        }
      case Clones(parent, child) => if parent != child { ClonedValues(names, parent, child); }
    }
  }

  lemma PutLoses(names: Names, key: Key, obj: Obj)
    ensures key !in names ==> Gone(names, names[key := obj]) == {}
  {
    if key !in names { ValuesPut(names, key, obj); }
  }

  /** A hosted call keeps the table valid exactly when it is granted; it always answers from the map
      and closes what no name shows any more. */
  method HostPerform(h: FdHosted.Hosted, call: Call) returns (answer: Result)
    requires h.Valid() && Proper(h.names, call)
    modifies h
    ensures (h.names, answer) == Serves(OnHost, old(h.names), call)
    ensures h.Valid() <==> HostGrants(old(h.names), call)
    ensures HostGrants(old(h.names), call) ==> h.closed == old(h.closed) + multiset(Gone(old(h.names), h.names))
  {
    hide Gone, LeastFd, FdHosted.RefsRight, FdHosted.KeysDiffer, FdHosted.Lists;
    if call.Opens? || call.Dups? || call.Clones? { NoneLost(h.names, call, FdHosted.LIMIT); }
    match call {
      case Opens(pid, obj) =>
        FdHosted.CountedIffShown(h.entries, h.refs, h.names, obj);
        answer := h.OpenFd(pid, obj);
      case Closes(pid, fd) => answer := h.CloseFd(pid, fd);
      case Dups(pid, fd) => answer := h.DupFd(pid, fd);
      case Dup2s(pid, fd, to) => answer := h.Dup2Fd(pid, fd, to);
      case Clones(parent, child) => answer := h.CloneProcessFds(parent, child);
      case Exits(pid) =>
        h.CloseProcessFds(pid);
        answer := Done;
    }
  }

  method HostReplay(h: FdHosted.Hosted, calls: seq<Call>) returns (answers: seq<Result>)
    requires h.Valid() && ProperRun(OnHost, h.names, calls) && HostGrantsRun(h.names, calls)
    modifies h
    ensures h.Valid() && (h.names, answers) == ServedAll(OnHost, old(h.names), calls)
    ensures h.closed == old(h.closed) + GoneAlong(OnHost, old(h.names), calls)
    decreases |calls|
  {
    hide Proper, HostGrants, Serves, Gone, FdHosted.Hosted.Valid;
    if calls == [] { return []; }
    var first := HostPerform(h, calls[0]);
    var rest := HostReplay(h, calls[1..]);
    answers := [first] + rest;
  }

  /** The native run closes what loses its last name along the way. */
  lemma {:induction false} ClosedAlong(b: Books, names: Names, calls: seq<Call>)
    requires Kept(b, names) && ProperRun(Native, names, calls) && GrantedRun(b, names, calls)
    ensures multiset(Run(b, calls).closed) == multiset(b.closed) + GoneAlong(Native, names, calls)
    decreases |calls|
  {
    hide Whole, Sound, Shows, TableStep, Gone, ClosedBy, Serves, Granted, Proper;
    KeptFacts(b, names);
    if calls != [] {
      var log := ClosedBy(b.table, calls[0]);
      StepIsRight(b, names, calls[0]);
      assert multiset(b.closed + log) == multiset(b.closed) + multiset(log);
      ClosedAlong(After(b, calls[0]), Serves(Native, names, calls[0]).0, calls[1..]);
    }
  }

  /** dup2 of a descriptor that is not open onto its own number: only the hosted kernel refuses. */
  predicate OntoItself(call: Call, native: Result, host: Result) {
    call.Dup2s? && call.fd == call.to >= 0 && native == Fd(call.to) && host == NotFound
  }

  lemma SameStep(s: seq<Slot>, names: Names, call: Call)
    requires Granted(s, names, call)
    ensures HostGrants(names, call)
    ensures var n, h := Serves(Native, names, call), Serves(OnHost, names, call);
            n.0 == h.0 && (n.1 == h.1 || OntoItself(call, n.1, h.1))
  {
    match call {
      case Opens(pid, _) => FdHosted.LeastSame(names, pid, FIRST_FD);
      case Dups(pid, fd) => if Resolve(names, pid, fd, true).Some? { FdHosted.LeastSame(names, pid, FIRST_FD); }
      case _ =>
    }
  }

  /** Whatever run the native kernel grants, the hosted kernel grants as well: with the same names
      and closing the same objects, and but for that one call with the same answers. */
  lemma {:induction false} SameRuns(b: Books, names: Names, calls: seq<Call>)
    requires |b.table| == SLOTS && ProperRun(Native, names, calls) && GrantedRun(b, names, calls)
    ensures ProperRun(OnHost, names, calls) && HostGrantsRun(names, calls)
    ensures GoneAlong(Native, names, calls) == GoneAlong(OnHost, names, calls)
    ensures var n, h := ServedAll(Native, names, calls), ServedAll(OnHost, names, calls);
            && n.0 == h.0 && |n.1| == |h.1| == |calls|
            && forall i :: 0 <= i < |calls| ==> n.1[i] == h.1[i] || OntoItself(calls[i], n.1[i], h.1[i])
    decreases |calls|
  {
    if calls != [] {
      SameStep(b.table, names, calls[0]);
      SameRuns(After(b, calls[0]), Serves(Native, names, calls[0]).0, calls[1..]);
    }
  }
}
