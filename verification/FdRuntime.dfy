/** The kernel runtime's descriptor calls over its fixed slot and pipe tables, each proved against
    the map of names it serves. */
module FdRuntime {
  import opened FdTable

  const PIPES := 8

  /** A pipe's ends, counted; a free record is all zero. */
  datatype Pipe = Pipe(used: bool, readRefs: int, writeRefs: int)

  const NO_PIPE := Pipe(false, 0, 0)

  // ----- the service that both descriptor tables give

  datatype Call =
    | Opens(pid: int, obj: Obj)
    | Closes(pid: int, fd: int)
    | Dups(pid: int, fd: int)
    | Dup2s(pid: int, fd: int, to: int)
    | Clones(parent: int, child: int)
    | Exits(pid: int)

  function ClonedMap(names: Names, parent: int, child: int): Names {
    names + map k | k in names && k.0 == parent :: (child, k.1) := names[k]
  }

  function WithoutProcess(names: Names, pid: int): Names { map k | k in names && k.0 != pid :: names[k] }

  function Shown(names: Names, pid: int, obj: Obj, limit: nat): (Names, Result) {
    var fd := if FIRST_FD <= limit then LeastFd(names, pid, FIRST_FD, limit) else limit;
    if fd == limit then (names, NoMemory) else (names[(pid, fd) := obj], Fd(fd))
  }

  /** The names after a call and what it answers; numbers handed out stay below `limit`. */
  function Served(names: Names, call: Call, limit: nat): (Names, Result) {
    match call
    case Opens(pid, obj) => Shown(names, pid, obj, limit)
    case Closes(pid, fd) =>
      (match Resolve(names, pid, fd, true)
       case None => (names, NotFound)
       case Some(k) => (names - {k}, Done))
    case Dups(pid, fd) =>
      (match Resolve(names, pid, fd, true)
       case None => (names, NotFound)
       case Some(k) => if k in names then Shown(names, pid, names[k], limit) else (names, NotFound))
    case Dup2s(pid, fd, to) =>
      if to < 0 then (names, InvalidArgument)
      else
        (match Resolve(names, pid, fd, true)
         case None => (names, NotFound)
         case Some(k) =>
           if fd == to then (names, Fd(to))
           else if k in names then (names[(pid, to) := names[k]], Fd(to)) else (names, NotFound))
    case Clones(parent, child) =>
      if parent <= 0 || child <= 0 || parent == child then (names, InvalidArgument)
      else (ClonedMap(names, parent, child), Done)
    case Exits(pid) => (WithoutProcess(names, pid), Done)
  }

  /** A process without descriptors. */
  predicate Bare(names: Names, child: int) { forall k | k in names :: k.0 != child }

  lemma ClonedNamesIsMap(names: Names, after: Names, parent: int, child: int)
    requires ClonedNames(names, after, parent, child) && Bare(names, child) && parent != child
    ensures after == ClonedMap(names, parent, child)
  {
    var m := ClonedMap(names, parent, child);
    forall k | k in after ensures k in m && m[k] == after[k] {}
    forall k | k in m ensures k in after {
      if k !in names { assert k.0 == child && (parent, k.1) in names; }
    }
  }

  // ----- pipes

  /** A pipe record counts the ends that are open, and is used while there is one. */
  ghost predicate PipeMatches(p: Pipe, q: int, live: set<Obj>)
    requires q >= 0
  {
    && p.readRefs == (if PipeEnd(q, false) in live then 1 else 0)
    && p.writeRefs == (if PipeEnd(q, true) in live then 1 else 0)
    && p.used == (p.readRefs + p.writeRefs > 0)
  }

  ghost predicate PipesMatch(pipes: seq<Pipe>, live: set<Obj>) {
    && |pipes| == PIPES
    && (forall q :: 0 <= q < |pipes| ==> PipeMatches(pipes[q], q, live))
    && (forall o :: o in live && o.PipeEnd? ==> o.pipe < PIPES)
  }

  /** An end goes; the record is cleared with the second end. */
  function Release(p: Pipe, write: bool): Pipe {
    var left := if write then p.(writeRefs := if p.writeRefs > 0 then p.writeRefs - 1 else p.writeRefs)
                else p.(readRefs := if p.readRefs > 0 then p.readRefs - 1 else p.readRefs);
    if left.readRefs == 0 && left.writeRefs == 0 then NO_PIPE else left
  }

  function ReleaseObject(pipes: seq<Pipe>, obj: Obj): seq<Pipe> {
    if obj.PipeEnd? && obj.pipe < |pipes| then pipes[obj.pipe := Release(pipes[obj.pipe], obj.write)] else pipes
  }

  lemma ReleaseMatches(pipes: seq<Pipe>, live: set<Obj>, obj: Obj)
    requires PipesMatch(pipes, live) && obj in live
    ensures PipesMatch(ReleaseObject(pipes, obj), live - {obj})
  {
    var after := ReleaseObject(pipes, obj);
    forall q | 0 <= q < |after| ensures PipeMatches(after[q], q, live - {obj}) {
      assert PipeMatches(pipes[q], q, live);
    }
  }

  lemma FileMatches(pipes: seq<Pipe>, live: set<Obj>, obj: Obj)
    requires PipesMatch(pipes, live) && obj.File?
    ensures PipesMatch(pipes, live + {obj})
  {
    forall q | 0 <= q < |pipes| ensures PipeMatches(pipes[q], q, live + {obj}) {
      assert PipeMatches(pipes[q], q, live);
    }
  }

  // ----- what a close does to the objects

  /** The objects that no name shows any more. */
  function Gone(before: Names, after: Names): set<Obj> { before.Values - after.Values }

  lemma GoneOnDrop(s: seq<Slot>, names: Names, e: int, x: int)
    requires SoundBut(s, x) && Named(s, e) && Shows(s, names)
    ensures x == -1 || s[x].obj != s[e].obj ==>
            Gone(names, names - {KeyOf(s, e)}) == if Final(s, e) then {s[e].obj} else {}
  {
    FinalIffLast(s, e, x, names);
    var rest := names - {KeyOf(s, e)};
    forall o | o in names.Values && o != s[e].obj ensures o in rest.Values {
      var k :| k in names && names[k] == o;
      assert rest[k] == o;
    }
    assert names[KeyOf(s, e)] == s[e].obj;
  }

  /** The object that closing slot `i` closes, if any. */
  ghost function LastOf(s: seq<Slot>, i: int): Option<Obj> {
    if 0 <= i < |s| && Final(s, i) then Some(s[i].obj) else None
  }

  /** The object that installing a record at `fd` closes, if any. */
  ghost function Replaced(s: seq<Slot>, fd: int, pid: int): Option<Obj> {
    if fd < SLOTS then LastOf(s, Find(s, fd, pid, false)) else None
  }

  ghost function ClosedWith(closed: multiset<Obj>, obj: Option<Obj>): multiset<Obj> {
    if obj.Some? then closed + multiset{obj.value} else closed
  }

  function ReleasedWith(pipes: seq<Pipe>, obj: Option<Obj>): seq<Pipe> {
    if obj.Some? then ReleaseObject(pipes, obj.value) else pipes
  }

  /** The slots are sound and show the names, pipe records count their open ends, and every object
      ever opened is shown by some name or has been closed, once. */
  ghost predicate Whole(s: seq<Slot>, pipes: seq<Pipe>, names: Names, acquired: multiset<Obj>, closed: multiset<Obj>) {
    && Sound(s) && Shows(s, names)
    && PipesMatch(pipes, names.Values)
    && acquired == closed + multiset(names.Values)
  }

  // ----- the calls on the table

  /** Closes the descriptors of a process from slot `i` on; the objects closed come in that order. */
  ghost function ExitFrom(s: seq<Slot>, pid: int, i: nat): (r: (seq<Slot>, seq<Obj>))
    requires i <= |s|
    ensures |r.0| == |s|
    decreases |s| - i
  {
    if i == |s| then (s, [])
    else if !(s[i].used && s[i].pid == pid) then ExitFrom(s, pid, i + 1)
    else
      var rest := ExitFrom(CloseAt(s, i), pid, i + 1);
      (rest.0, ListOf(LastOf(s, i)) + rest.1)
  }

  ghost function ListOf(obj: Option<Obj>): seq<Obj> { if obj.Some? then [obj.value] else [] }

  /** What a call leaves in the table and what it answers. */
  ghost function TableStep(s: seq<Slot>, call: Call): (r: Installed)
    requires |s| == SLOTS
    ensures |r.table| == SLOTS
  {
    match call
    case Opens(pid, obj) => InstallNew(s, Opening(pid, obj))
    case Closes(pid, fd) =>
      var i := Find(s, fd, pid, true);
      if 0 <= i < |s| then Installed(CloseAt(s, i), Done) else Installed(s, NotFound)
    case Dups(pid, fd) => Dup(s, pid, fd)
    case Dup2s(pid, fd, to) => Dup2(s, pid, fd, to)
    case Clones(parent, child) => CloneFds(s, parent, child)
    case Exits(pid) => Installed(ExitFrom(s, pid, 0).0, Done)
  }

  class Runtime {
    const fds: array<Slot>
    const pipes: array<Pipe>
    ghost var names: Names
    ghost var acquired: multiset<Obj>
    ghost var closed: multiset<Obj>

    ghost predicate Valid()
      reads this, fds, pipes
    {
      Whole(fds[..], pipes[..], names, acquired, closed)
    }

    constructor ()
      ensures Valid() && names == map[] && fresh(fds) && fresh(pipes)
    {
      fds := new Slot[SLOTS](i => EMPTY);
      pipes := new Pipe[PIPES](i => NO_PIPE);
      names, acquired, closed := map[], multiset{}, multiset{};
      new;
      EmptySound(fds[..]);
      forall q | 0 <= q < PIPES ensures PipeMatches(pipes[..][q], q, {}) {}
    }

    method FindFdSlot(fd: int, pid: int, globals: bool) returns (r: int)
      ensures r == Find(fds[..], fd, pid, globals)
    {
      if fd < 0 { return -1; }
      var global := -1;
      var i := 0;
      while i < fds.Length
        invariant 0 <= i <= fds.Length
        invariant FindSlot(fds[..], fd, pid, globals, 0, -1) == FindSlot(fds[..], fd, pid, globals, i, global)
      {
        if fds[i].used && fds[i].fd == fd {
          if fds[i].pid == pid { return i; }
          if globals && fds[i].pid == 0 { global := i; }
        }
        i := i + 1;
      }
      r := global;
    }

    method FindAlias(fd: int) returns (p: int)
      requires 0 <= fd < fds.Length
      ensures p == FirstAlias(fds[..], fd, 0)
    {
      p := 0;
      while p < fds.Length
        invariant 0 <= p <= fds.Length
        invariant FirstAlias(fds[..], fd, 0) == FirstAlias(fds[..], fd, p)
      {
        if p != fd && fds[p].used && fds[p].owner == fd { return; }
        p := p + 1;
      }
    }

    /** Ownership moves to slot `p`, which the other aliases then follow. */
    method Promote(fd: int, p: int)
      requires 0 <= fd < fds.Length && 0 <= p < fds.Length && p != fd && fds[p].used && fds[p].owner == fd
      modifies fds
      ensures fds[..] == Handover(old(fds[..]), fd, p)
    {
      fds[p] := fds[p].(owner := p, refs := fds[fd].refs - 1);
      var i := 0;
      while i < fds.Length
        invariant 0 <= i <= fds.Length
        invariant fds[p] == old(fds[p]).(owner := p, refs := old(fds[fd]).refs - 1)
        invariant forall j :: 0 <= j < i && j != p ==>
                    fds[j] == if old(fds[j]).used && old(fds[j]).owner == fd then old(fds[j]).(owner := p)
                      else old(fds[j])
        invariant forall j :: i <= j < fds.Length && j != p ==> fds[j] == old(fds[j])
      {
        if i != p && fds[i].used && fds[i].owner == fd { fds[i] := fds[i].(owner := p); }
        i := i + 1;
      }
      fds[fd] := EMPTY;
    }

    /** Closes the object itself; a pipe end leaves its pipe. */
    method CloseObject(obj: Obj)
      modifies `closed, pipes
      ensures closed == old(closed) + multiset{obj} && pipes[..] == ReleaseObject(old(pipes[..]), obj)
    {
      closed := closed + multiset{obj};
      if obj.PipeEnd? && obj.pipe < pipes.Length {
        var q := obj.pipe;
        if obj.write {
          if pipes[q].writeRefs > 0 { pipes[q] := pipes[q].(writeRefs := pipes[q].writeRefs - 1); }
        } else if pipes[q].readRefs > 0 {
          pipes[q] := pipes[q].(readRefs := pipes[q].readRefs - 1);
        }
        if pipes[q].readRefs == 0 && pipes[q].writeRefs == 0 { pipes[q] := NO_PIPE; }
      }
    }

    /** An owner without aliases: the object is closed unless references are left over. */
    method CloseFdRecord(fd: int)
      requires 0 <= fd < fds.Length && fds[fd].used
      modifies fds, pipes, `closed
      ensures fds[..] == old(fds[..])[fd := if old(fds[fd]).refs > 1
                                            then old(fds[fd]).(refs := old(fds[fd]).refs - 1, fd := -1, pid := -1)
                                            else EMPTY]
      ensures old(fds[fd]).refs > 1 ==> closed == old(closed) && pipes[..] == old(pipes[..])
      ensures old(fds[fd]).refs <= 1 ==>
                closed == old(closed) + multiset{old(fds[fd]).obj} &&
                  pipes[..] == ReleaseObject(old(pipes[..]), old(fds[fd]).obj)
    {
      fds[fd] := fds[fd].(refs := fds[fd].refs - 1);
      if fds[fd].refs > 0 {
        fds[fd] := fds[fd].(fd := -1, pid := -1);
        return;
      }
      CloseObject(fds[fd].obj);
      fds[fd] := EMPTY;
    }

    method CloseFdIndex(fd: int)
      requires 0 <= fd < fds.Length && fds[fd].used
      modifies fds, pipes, `closed
      ensures fds[..] == CloseAt(old(fds[..]), fd)
      ensures closed == ClosedWith(old(closed), LastOf(old(fds[..]), fd))
      ensures pipes[..] == ReleasedWith(old(pipes[..]), LastOf(old(fds[..]), fd))
    {
      var o := fds[fd].owner;
      if o != fd && 0 <= o < fds.Length {
        if fds[o].used && fds[o].refs > 0 { fds[o] := fds[o].(refs := fds[o].refs - 1); }
        fds[fd] := EMPTY;
        return;
      }
      if fds[fd].refs > 1 {
        var p := FindAlias(fd);
        if p < fds.Length {
          Promote(fd, p);
          return;
        }
      }
      CloseFdRecord(fd);
    }

    /** Closes one descriptor: its name goes, and the object with its last name. */
    method CloseSlot(i: int)
      requires Valid() && Named(fds[..], i)
      modifies this`names, this`closed, fds, pipes
      ensures Valid() && names == old(names) - {KeyOf(old(fds[..]), i)}
      ensures fds[..] == CloseAt(old(fds[..]), i)
      ensures closed == old(closed) + multiset(Gone(old(names), names))
    {
      hide Sound, Shows, PipesMatch, Gone;
      ghost var after := names - {KeyOf(fds[..], i)};
      CloseWhole(fds[..], pipes[..], names, acquired, closed, i);
      CloseFdIndex(i);
      names := after;
    }

    method CloseFd(pid: int, fd: int) returns (result: Result)
      requires Valid() && pid >= 0
      modifies this`names, this`closed, fds, pipes
      ensures Valid() && (names, result) == Served(old(names), Closes(pid, fd), SLOTS)
      ensures closed == old(closed) + multiset(Gone(old(names), names))
      ensures Installed(fds[..], result) == TableStep(old(fds[..]), Closes(pid, fd))
    {
      var slot := FindFdSlot(fd, pid, true);
      FindResolves(fds[..], fd, pid, true, names, -1);
      if slot < 0 {
        assert Gone(names, names) == {};
        return NotFound;
      }
      CloseSlot(slot);
      result := Done;
    }

    method LowestFree(pid: int) returns (fd: int)
      ensures fd == LowestFd(fds[..], pid, FIRST_FD)
    {
      fd := FIRST_FD;
      while fd < SLOTS
        invariant FIRST_FD <= fd <= SLOTS
        invariant LowestFd(fds[..], pid, FIRST_FD) == LowestFd(fds[..], pid, fd)
      {
        var taken := FindFdSlot(fd, pid, false);
        if taken < 0 { FindNegative(fds[..], fd, pid); return; }
        fd := fd + 1;
      }
    }

    method PutRecord(record: Slot, fd: int) returns (result: Result)
      modifies fds
      ensures Installed(fds[..], result) == Put(old(fds[..]), record, fd)
    {
      var slot := 0;
      while slot < fds.Length
        invariant 0 <= slot <= fds.Length
        invariant FirstFree(fds[..], 0) == FirstFree(fds[..], slot)
        invariant fds[..] == old(fds[..])
      {
        if !fds[slot].used {
          fds[slot] := Slot(true, record.pid, fd, if record.owner < 0 then slot else record.owner,
                            record.refs, record.obj);
          return Fd(fd);
        }
        slot := slot + 1;
      }
      result := NoMemory;
    }

    /** `requested` below zero asks for the lowest free number. */
    method InstallRecord(record: Slot, requested: int) returns (result: Result)
      requires fds.Length == SLOTS && record.pid >= 0
      modifies fds, pipes, `closed
      ensures Installed(fds[..], result) ==
              if requested < 0 then InstallNew(old(fds[..]), record) else InstallAt(old(fds[..]), record, requested)
      ensures closed == ClosedWith(old(closed), Replaced(old(fds[..]), requested, record.pid))
      ensures pipes[..] == ReleasedWith(old(pipes[..]), Replaced(old(fds[..]), requested, record.pid))
    {
      var fd := requested;
      if requested < 0 {
        fd := LowestFree(record.pid);
        if fd == SLOTS { return NoMemory; }
      } else {
        if requested >= SLOTS { return NoMemory; }
        var existing := FindFdSlot(requested, record.pid, false);
        FindUsed(fds[..], requested, record.pid, false, 0, -1);
        if existing >= 0 { CloseFdIndex(existing); }
      }
      result := PutRecord(record, fd);
    }

    /** A file, directory or device that was opened gets a descriptor; without room for one the
        object stays open with nothing to close it. */
    method OpenFd(pid: int, obj: Obj) returns (result: Result)
      requires Valid() && pid >= 0 && obj.File? && obj !in names.Values
      modifies this`names, this`acquired, this`closed, fds, pipes
      ensures (names, result) == (if old(HasRoom(fds[..], names, pid)) then Served(old(names), Opens(pid, obj), SLOTS)
                                  else (old(names), NoMemory))
      ensures Valid() <==> old(HasRoom(fds[..], names, pid))
      ensures Installed(fds[..], result) == TableStep(old(fds[..]), Opens(pid, obj))
      ensures acquired == old(acquired) + multiset{obj} && closed == old(closed)
    {
      OpenWhole(fds[..], pipes[..], names, acquired, closed, pid, obj);
      ghost var room, after := HasRoom(fds[..], names, pid), Served(names, Opens(pid, obj), SLOTS).0;
      acquired := acquired + multiset{obj};
      result := InstallRecord(Opening(pid, obj), -1);
      if room { names := after; }
    }

    /** Takes a reference on the owner and installs an alias of it. */
    method Duplicate(owner: int, pid: int, requested: int) returns (result: Result)
      requires fds.Length == SLOTS && 0 <= owner < fds.Length && pid >= 0
      modifies fds, pipes, `closed
      ensures Installed(fds[..], result) == Duplicated(old(fds[..]), owner, pid, requested)
      ensures closed == ClosedWith(old(closed), Replaced(Bump(old(fds[..]), owner), requested, pid))
      ensures pipes[..] == ReleasedWith(old(pipes[..]), Replaced(Bump(old(fds[..]), owner), requested, pid))
    {
      var copy := fds[owner];
      ghost var s := fds[..];
      fds[owner] := fds[owner].(refs := fds[owner].refs + 1);
      assert fds[..] == Bump(s, owner);
      result := InstallRecord(copy.(owner := owner, fd := requested, pid := pid), requested);
    }

    method DupFd(pid: int, fd: int) returns (result: Result)
      requires Valid() && pid >= 0
      modifies this`names, this`closed, fds, pipes
      ensures closed == old(closed) && Installed(fds[..], result) == TableStep(old(fds[..]), Dups(pid, fd))
      ensures old(Resolve(names, pid, fd, true).None? || HasRoom(fds[..], names, pid)) ==>
                Valid() && (names, result) == Served(old(names), Dups(pid, fd), SLOTS)
      ensures old(Resolve(names, pid, fd, true).Some? && !HasRoom(fds[..], names, pid)) ==>
                !Valid() && names == old(names) && result == NoMemory
    {
      ghost var s, was := fds[..], names;
      FindResolves(s, fd, pid, true, names, -1);
      var slot := FindFdSlot(fd, pid, true);
      var owner := OwnerIndex(fds[..], slot);
      if owner < 0 { return NotFound; }
      DupWhole(s, pipes[..], names, acquired, closed, pid, fd);
      result := Duplicate(owner, pid, -1);
      if HasRoom(s, was, pid) { names := Served(was, Dups(pid, fd), SLOTS).0; }
    }

    method Dup2Fd(pid: int, fd: int, to: int) returns (result: Result)
      requires Valid() && pid >= 0
      modifies this`names, this`closed, fds, pipes
      ensures Installed(fds[..], result) == TableStep(old(fds[..]), Dup2s(pid, fd, to))
      ensures to < 0 ==> Valid() && names == old(names) && result == InvalidArgument
      ensures to >= 0 && fd == to ==> Valid() && names == old(names) && result == Fd(to)
      ensures to >= 0 && fd != to && old(Resolve(names, pid, fd, true).None?) ==>
                Valid() && names == old(names) && result == NotFound
      ensures to >= 0 && fd != to && old(Resolve(names, pid, fd, true).Some? && Dup2Room(fds[..], pid, fd, to)) ==>
                && Valid() && (names, result) == Served(old(names), Dup2s(pid, fd, to), SLOTS)
                && closed == old(closed) + multiset(Gone(old(names), names))
      ensures to >= 0 && fd != to && old(Resolve(names, pid, fd, true).Some? && !Dup2Room(fds[..], pid, fd, to)) ==>
                !Valid()
    {
      if to < 0 { return InvalidArgument; }
      if fd == to { return Fd(to); }
      FindResolves(fds[..], fd, pid, true, names, -1);
      var slot := FindFdSlot(fd, pid, true);
      var owner := OwnerIndex(fds[..], slot);
      if owner < 0 { return NotFound; }
      result := Replace(owner, pid, fd, to);
    }

    /** The part of dup2 that writes. */
    method Replace(owner: int, pid: int, fd: int, to: int) returns (result: Result)
      requires Valid() && pid >= 0 && to >= 0 && fd != to && Resolve(names, pid, fd, true).Some?
      requires owner == OwnerIndex(fds[..], Find(fds[..], fd, pid, true))
      modifies this`names, this`closed, fds, pipes
      ensures old(Dup2Room(fds[..], pid, fd, to)) ==>
                && Valid() && (names, result) == Served(old(names), Dup2s(pid, fd, to), SLOTS)
                && closed == old(closed) + multiset(Gone(old(names), names))
      ensures !old(Dup2Room(fds[..], pid, fd, to)) ==> !Valid()
      ensures 0 <= owner < fds.Length && Installed(fds[..], result) == Duplicated(old(fds[..]), owner, pid, to)
    {
      hide Sound, Shows, PipesMatch, Gone, Served, Replaced, Duplicated, Bump, Dup2Room, Find, OwnerIndex, ClosedWith,
           ReleasedWith;
      Sizes();
      ghost var room := Dup2Room(fds[..], pid, fd, to);
      ghost var after := Served(names, Dup2s(pid, fd, to), SLOTS).0;
      Dup2Whole(fds[..], pipes[..], names, acquired, closed, pid, fd, to);
      result := Duplicate(owner, pid, to);
      if room { names := after; }
    }

    /** Closes every descriptor of a process. */
    method CloseProcessFds(pid: int)
      requires Valid() && pid >= 0
      modifies this`names, this`closed, fds, pipes
      ensures Valid() && names == WithoutProcess(old(names), pid)
      ensures fds[..] == ExitFrom(old(fds[..]), pid, 0).0
      ensures closed == old(closed) + multiset(Gone(old(names), names))
    {
      hide Attached, Counts, OneOwner, OneKey, Shows, PipesMatch, Gone, Narrowed, CloseAt, NoneOf;
      NarrowSelf(names, pid);
      NoneYet(fds[..], pid);
      var slot := 0;
      while slot < fds.Length
        invariant 0 <= slot <= fds.Length
        invariant Valid()
        invariant ExitFrom(old(fds[..]), pid, 0).0 == ExitFrom(fds[..], pid, slot).0
        invariant Narrowed(old(names), names, pid)
        invariant NoneOf(fds[..], pid, slot)
      {
        NoneMore(fds[..], pid, slot);
        if fds[slot].used && fds[slot].pid == pid {
          NoneAfterClose(fds[..], pid, slot);
          NarrowMore(old(names), names, pid, KeyOf(fds[..], slot));
          CloseSlot(slot);
        }
        slot := slot + 1;
      }
      NarrowedAll(fds[..], old(names), names, pid);
      GoneBetween(old(names), names, pid, acquired, old(closed), closed);
    }

    /** Gives a process without descriptors those of its parent. */
    method CloneProcessFds(parent: int, child: int) returns (result: Result)
      requires Valid() && Bare(names, child)
      modifies this`names, this`closed, fds, pipes
      ensures closed == old(closed) && Installed(fds[..], result) == TableStep(old(fds[..]), Clones(parent, child))
      ensures parent <= 0 || child <= 0 || parent == child ==>
                Valid() && names == old(names) && result == InvalidArgument
      ensures parent > 0 && child > 0 && parent != child && old(SlotsFor(fds[..], parent)) ==>
                Valid() && (names, result) == Served(old(names), Clones(parent, child), SLOTS)
      ensures parent > 0 && child > 0 && parent != child && !old(SlotsFor(fds[..], parent)) ==>
                !Valid() && result == NoMemory
    {
      hide ClonedMap, AllPending;
      if parent <= 0 || child <= 0 || parent == child { return InvalidArgument; }
      CloneWhole(fds[..], pipes[..], names, acquired, closed, parent, child);
      ghost var room, after := SlotsFor(fds[..], parent), ClonedMap(names, parent, child);
      result := CloneAll(parent, child);
      if room { names := after; }
    }

    method CloneAll(parent: int, child: int) returns (result: Result)
      requires Sound(fds[..]) && Shows(fds[..], names) && fds.Length == SLOTS
      requires parent > 0 && child > 0 && parent != child && AllPending(fds[..], names, parent, child, 0)
      modifies fds, pipes, `closed
      ensures Installed(fds[..], result) == CloneFrom(old(fds[..]), parent, child, 0)
      ensures closed == old(closed) && pipes[..] == old(pipes[..])
    {
      ghost var m := names;
      var slot := 0;
      while slot < fds.Length
        invariant 0 <= slot <= fds.Length
        invariant Sound(fds[..]) && Shows(fds[..], m) && AllPending(fds[..], m, parent, child, slot)
        invariant CloneFrom(fds[..], parent, child, slot) == CloneFrom(old(fds[..]), parent, child, 0)
        invariant closed == old(closed) && pipes[..] == old(pipes[..])
      {
        if fds[slot].used && fds[slot].pid == parent {
          ghost var s := fds[..];
          var more := CloneSlot(slot, parent, child, m);
          if !more { return NoMemory; }
          m := m[(child, s[slot].fd) := s[slot].obj];
        } else {
          PendingLater(fds[..], m, parent, child, slot);
        }
        slot := slot + 1;
      }
      result := Done;
    }

    method CloneSlot(slot: nat, parent: int, child: int, ghost m: Names) returns (ok: bool)
      requires slot < fds.Length == SLOTS && Sound(fds[..]) && Shows(fds[..], m)
      requires parent > 0 && child > 0 && parent != child && AllPending(fds[..], m, parent, child, slot)
      requires fds[slot].used && fds[slot].pid == parent
      modifies fds, pipes, `closed
      ensures closed == old(closed) && pipes[..] == old(pipes[..])
      ensures var s := old(fds[..]);
              if ok then
                var after := m[(child, s[slot].fd) := s[slot].obj];
                && Sound(fds[..]) && Shows(fds[..], after) && AllPending(fds[..], after, parent, child, slot + 1)
                && CloneFrom(fds[..], parent, child, slot + 1) == CloneFrom(s, parent, child, slot)
              else Installed(fds[..], NoMemory) == CloneFrom(s, parent, child, slot)
    {
      ghost var s := fds[..];
      assert Pending(s, m, parent, child, slot, slot);
      CloneOne(s, m, parent, child, slot);
      CloneReplacesNothing(s, m, parent, child, slot);
      var owner := OwnerIndex(fds[..], slot);
      var copy := fds[slot].(pid := child, owner := owner, refs := 1);
      fds[owner] := fds[owner].(refs := fds[owner].refs + 1);
      assert fds[..] == Bump(s, owner);
      var installed := InstallRecord(copy, copy.fd);
      ok := installed.Fd?;
      if ok {
        ClonedAtKeeps(s, m, parent, child, slot);
        ClonedAtPends(s, m, parent, child, slot);
      }
    }

    /** A pipe: two new ends at the two lowest numbers, or nothing at all; it fails exactly when no pipe
        record is free or the process has no room for two names. */
    method PipeCreate(pid: int) returns (result: Result, readFd: int, writeFd: int)
      requires Valid() && pid >= 0
      modifies this, fds, pipes
      ensures Valid()
      ensures result == Done || (result == NoMemory && names == old(names))
      ensures result == Done <==>
              old((exists q: nat :: q < PIPES && !pipes[..][q].used) && RoomForTwo(fds[..], names, pid))
      ensures result == Done ==>
                exists q: nat :: q < PIPES && PipeEnd(q, false) !in old(names.Values) &&
                  PipeEnd(q, true) !in old(names.Values)
                  && var one := Served(old(names), Opens(pid, PipeEnd(q, false)), SLOTS);
                     one.1 == Fd(readFd) && (names, Fd(writeFd)) == Served(one.0, Opens(pid, PipeEnd(q, true)), SLOTS)
    {
      result, readFd, writeFd := NoMemory, -1, -1;
      var q := 0;
      while q < PIPES && pipes[q].used
        invariant 0 <= q <= PIPES && forall r :: 0 <= r < q ==> pipes[..][r].used
      {
        q := q + 1;
      }
      if q == PIPES { return; }
      assert PipeMatches(pipes[..][q], q, names.Values);
      result, readFd, writeFd := PipeEnds(pid, q);
    }

    lemma Sizes()
      requires Valid()
      ensures fds.Length == SLOTS && pipes.Length == PIPES
    {}

    method PipeEnds(pid: int, q: nat) returns (result: Result, readFd: int, writeFd: int)
      requires Valid() && pid >= 0 && q < PIPES && !pipes[q].used
      requires PipeEnd(q, false) !in names.Values && PipeEnd(q, true) !in names.Values
      modifies this, fds, pipes
      ensures Valid()
      ensures result == Done || (result == NoMemory && names == old(names))
      ensures result == Done <==> old(RoomForTwo(fds[..], names, pid))
      ensures result == Done ==>
                var one := Served(old(names), Opens(pid, PipeEnd(q, false)), SLOTS);
                one.1 == Fd(readFd) && (names, Fd(writeFd)) == Served(one.0, Opens(pid, PipeEnd(q, true)), SLOTS)
    {
      hide Sound, Shows, PipesMatch;
      Sizes();
      PipeBack(pipes[..], names.Values, q);
      result, readFd, writeFd := NoMemory, -1, -1;
      ghost var was := pipes[..];
      if HasRoom(fds[..], names, pid) { OpenLeavesRoom(fds[..], names, pid, PipeEnd(q, false)); }
      pipes[q] := Pipe(true, 1, 1);
      var one := InstallEnd(pid, PipeEnd(q, false));
      if !one.Fd? {
        pipes[q] := NO_PIPE;
        PipeBack(was, names.Values, q);
        assert pipes[..] == was;
        return;
      }
      PutDrop(old(names), (pid, one.fd), PipeEnd(q, false));
      assert names.Values - {PipeEnd(q, false)} == old(names.Values);
      result, readFd, writeFd := SecondEnd(pid, q, one.fd, was);
    }

    /** One end is in the table and the pipe already counts two. */
    ghost predicate Half(pid: int, q: nat, fd: int, was: seq<Pipe>)
      reads this, fds, pipes
    {
      && q < PIPES && fd >= 0 && Sound(fds[..]) && Shows(fds[..], names)
      && (pid, fd) in names && names[(pid, fd)] == PipeEnd(q, false)
      && (names - {(pid, fd)}).Values == names.Values - {PipeEnd(q, false)}
      && PipesMatch(was, names.Values - {PipeEnd(q, false)}) && !was[q].used
      && pipes[..] == was[q := Pipe(true, 1, 1)]
      && acquired == closed + multiset(names.Values)
    }

    method SecondEnd(pid: int, q: nat, fd: int, ghost was: seq<Pipe>)
      returns (result: Result, readFd: int, writeFd: int)
      requires fds.Length == SLOTS && pid >= 0 && Half(pid, q, fd, was) && PipeEnd(q, true) !in names.Values
      modifies this, fds, pipes
      ensures Valid()
      ensures result == Done || (result == NoMemory && names == old(names) - {(pid, fd)})
      ensures result == Done <==> old(HasRoom(fds[..], names, pid))
      ensures result == Done ==>
                readFd == fd && (names, Fd(writeFd)) == Served(old(names), Opens(pid, PipeEnd(q, true)), SLOTS)
    {
      result, readFd, writeFd := NoMemory, -1, -1;
      var two := InstallEnd(pid, PipeEnd(q, true));
      if two.Fd? {
        PipeBoth(was, old(names.Values) - {PipeEnd(q, false)}, q);
        assert old(names.Values) - {PipeEnd(q, false)} + {PipeEnd(q, false)} == old(names.Values);
        return Done, fd, two.fd;
      }
      Withdraw(pid, q, fd, was);
    }

    method Withdraw(pid: int, q: nat, fd: int, ghost was: seq<Pipe>)
      requires fds.Length == SLOTS && pid >= 0 && Half(pid, q, fd, was)
      modifies this, fds, pipes
      ensures Valid() && names == old(names) - {(pid, fd)}
    {
      DropEnd(pid, fd, PipeEnd(q, false));
      pipes[q] := NO_PIPE;
      PipeBack(was, names.Values, q);
      assert pipes[..] == was;
    }

    method InstallEnd(pid: int, end: Obj) returns (result: Result)
      requires fds.Length == SLOTS && Sound(fds[..]) && Shows(fds[..], names) && pid >= 0 && end !in names.Values
      modifies this`names, this`acquired, this`closed, fds, pipes
      ensures Sound(fds[..]) && Shows(fds[..], names) && closed == old(closed) && pipes[..] == old(pipes[..])
      ensures result == (if old(HasRoom(fds[..], names, pid)) then Fd(LeastFd(old(names), pid, FIRST_FD, SLOTS))
                else NoMemory)
      ensures fds[..] == InstallNew(old(fds[..]), Opening(pid, end)).table
      ensures !result.Fd? ==> names == old(names) && acquired == old(acquired)
      ensures result.Fd? ==>
                && (names, result) == Served(old(names), Opens(pid, end), SLOTS)
                && result.fd >= 0 && (pid, result.fd) !in old(names) && names == old(names)[(pid, result.fd) := end]
                && names.Values == old(names).Values + {end} && acquired == old(acquired) + multiset{end}
    {
      OpenInstalls(fds[..], names, pid, end);
      ghost var room, fd := HasRoom(fds[..], names, pid), LeastFd(names, pid, FIRST_FD, SLOTS);
      result := InstallRecord(Opening(pid, end), -1);
      if room {
        ValuesPut(names, (pid, fd), end);
        names := names[(pid, fd) := end];
        acquired := acquired + multiset{end};
      }
    }

    /** Takes back an end that was just installed. */
    method DropEnd(pid: int, fd: int, end: Obj)
      requires fds.Length == SLOTS && Sound(fds[..]) && Shows(fds[..], names) && pid >= 0 && fd >= 0
      requires (pid, fd) in names && names[(pid, fd)] == end && end !in (names - {(pid, fd)}).Values
      modifies this`names, this`closed, fds, pipes
      ensures Sound(fds[..]) && names == old(names) - {(pid, fd)} && Shows(fds[..], names)
      ensures closed == old(closed) + multiset{end} && pipes[..] == ReleaseObject(old(pipes[..]), end)
    {
      ghost var s := fds[..];
      FindResolves(s, fd, pid, true, names, -1);
      var slot := FindFdSlot(fd, pid, true);
      CloseKeepsSound(s, slot, -1);
      CloseShows(s, slot, -1, names);
      FinalIffLast(s, slot, -1, names);
      CloseFdIndex(slot);
      names := names - {(pid, fd)};
    }
  }

  lemma PutDrop(names: Names, key: Key, obj: Obj)
    requires key !in names
    ensures names[key := obj] - {key} == names
  {}

  lemma PipeBoth(pipes: seq<Pipe>, live: set<Obj>, q: nat)
    requires PipesMatch(pipes, live) && q < PIPES
    ensures PipesMatch(pipes[q := Pipe(true, 1, 1)], live + {PipeEnd(q, false)} + {PipeEnd(q, true)})
  {
    var both := live + {PipeEnd(q, false)} + {PipeEnd(q, true)};
    var after := pipes[q := Pipe(true, 1, 1)];
    forall r | 0 <= r < PIPES ensures PipeMatches(after[r], r, both) {
      assert PipeMatches(pipes[r], r, live);
    }
  }

  lemma PipeBack(pipes: seq<Pipe>, live: set<Obj>, q: nat)
    requires PipesMatch(pipes, live) && q < PIPES && !pipes[q].used
    ensures pipes[q] == NO_PIPE
  {
    assert PipeMatches(pipes[q], q, live);
  }

  /** Only names of `pid` have gone. */
  ghost predicate Narrowed(before: Names, after: Names, pid: int) {
    && (forall k :: k in after ==> k in before && after[k] == before[k])
    && (forall k :: k in before && k.0 != pid ==> k in after)
  }

  ghost predicate NoneOf(s: seq<Slot>, pid: int, n: nat) {
    forall i :: 0 <= i < n && i < |s| && s[i].used ==> s[i].pid != pid
  }

  lemma NoneYet(s: seq<Slot>, pid: int)
    ensures NoneOf(s, pid, 0)
  {}

  lemma NoneMore(s: seq<Slot>, pid: int, slot: nat)
    requires slot < |s| && NoneOf(s, pid, slot)
    ensures !(s[slot].used && s[slot].pid == pid) ==> NoneOf(s, pid, slot + 1)
  {}

  lemma NoneAfterClose(s: seq<Slot>, pid: int, slot: nat)
    requires Sound(s) && slot < |s| && Named(s, slot) && pid >= 0 && NoneOf(s, pid, slot)
    ensures NoneOf(CloseAt(s, slot), pid, slot + 1)
  {
    var t := CloseAt(s, slot);
    CloseKeepsSound(s, slot, -1);
    CloseKeepsSlots(s, slot, -1);
    forall i | 0 <= i < slot + 1 && i < |t| && t[i].used ensures t[i].pid != pid {
      assert Attached(t, i, -1) && Same(s, t, i, slot);
    }
  }

  lemma NarrowMore(before: Names, names: Names, pid: int, key: Key)
    requires Narrowed(before, names, pid) && key.0 == pid
    ensures Narrowed(before, names - {key}, pid)
  {}

  lemma NarrowSelf(names: Names, pid: int)
    ensures Narrowed(names, names, pid)
  {}

  lemma NarrowAll(before: Names, after: Names, pid: int)
    requires Narrowed(before, after, pid) && forall k :: k in after ==> k.0 != pid
    ensures after == WithoutProcess(before, pid)
  {}

  /** With nothing new opened, what a call closes is what no name shows any more. */
  lemma GoneBetween(before: Names, after: Names, pid: int, acquired: multiset<Obj>, closed: multiset<Obj>,
          now: multiset<Obj>)
    requires acquired == closed + multiset(before.Values) && acquired == now + multiset(after.Values)
    requires Narrowed(before, after, pid)
    ensures now == closed + multiset(Gone(before, after))
  {
    forall o | o in after.Values ensures o in before.Values {
      var k :| k in after && after[k] == o;
      assert before[k] == o;
    }
    assert before.Values == after.Values + Gone(before, after);
    forall o ensures now[o] == (closed + multiset(Gone(before, after)))[o] {
      assert acquired[o] == closed[o] + multiset(before.Values)[o] && acquired[o] == now[o] + multiset(after.Values)[o];
    }
  }

  lemma NarrowedAll(s: seq<Slot>, before: Names, after: Names, pid: int)
    requires Shows(s, after) && Narrowed(before, after, pid) && NoneOf(s, pid, |s|)
    ensures after == WithoutProcess(before, pid)
  {
    forall k | k in after ensures k.0 != pid {
      var i :| Named(s, i) && KeyOf(s, i) == k;
    }
  }

  lemma CloneReplacesNothing(s: seq<Slot>, names: Names, parent: int, child: int, i: nat)
    requires Sound(s) && Shows(s, names) && child > 0 && parent != child && i < SLOTS
    requires Named(s, i) && s[i].pid == parent && (child, s[i].fd) !in names
    ensures 0 <= OwnerIndex(s, i) < |s|
    ensures Replaced(Bump(s, OwnerIndex(s, i)), s[i].fd, child) == None
  {
    OwnerOf(s, i);
    BumpSurplus(s, s[i].owner, names);
    FindResolves(Bump(s, s[i].owner), s[i].fd, child, false, names, s[i].owner);
  }

  /** There are free slots for all of a process's descriptors. */
  ghost predicate SlotsFor(s: seq<Slot>, pid: int) { |SlotsOf(s, pid, 0)| <= |Unused(s)| }

  lemma ClonedValues(names: Names, parent: int, child: int)
    requires Bare(names, child) && parent != child
    ensures ClonedMap(names, parent, child).Values == names.Values
  {
    var m := ClonedMap(names, parent, child);
    forall o ensures o in m.Values <==> o in names.Values {
      if o in m.Values {
        var k :| k in m && m[k] == o;
        assert k in names ==> names[k] == o;
        assert k !in names ==> names[(parent, k.1)] == o;
      }
      if o in names.Values {
        var k :| k in names && names[k] == o;
        assert m[k] == o;
      }
    }
  }

  lemma CloneServed(s: seq<Slot>, names: Names, parent: int, child: int)
    requires Sound(s) && Shows(s, names) && parent > 0 && child > 0 && parent != child && Bare(names, child)
    ensures AllPending(s, names, parent, child, 0)
    ensures ClonedMap(names, parent, child).Values == names.Values
    ensures var r := CloneFrom(s, parent, child, 0);
            if SlotsFor(s, parent)
            then Sound(r.table) && Shows(r.table, ClonedMap(names, parent, child)) && r.result == Done
            else !Sound(r.table) && r.result == NoMemory
  {
    CloneSoundIff(s, names, parent, child);
    CopiesClone(s, names, parent, child);
    var r := CloneFrom(s, parent, child, 0);
    if Sound(r.table) {
      var after :| Shows(r.table, after) && ClonedNames(names, after, parent, child);
      ClonedNamesIsMap(names, after, parent, child);
    }
    ClonedValues(names, parent, child);
  }

  /** A reference taken and an alias installed. */
  function Duplicated(s: seq<Slot>, owner: int, pid: int, requested: int): Installed
    requires 0 <= owner < |s|
  {
    var copy := s[owner].(owner := owner, fd := requested, pid := pid);
    if requested < 0 then InstallNew(Bump(s, owner), copy) else InstallAt(Bump(s, owner), copy, requested)
  }

  lemma DupServed(s: seq<Slot>, names: Names, pid: int, fd: int)
    requires Sound(s) && Shows(s, names) && pid >= 0 && Resolve(names, pid, fd, true).Some?
    ensures var o := OwnerIndex(s, Find(s, fd, pid, true));
            && 0 <= o < |s| && Replaced(Bump(s, o), -1, pid) == None
            && var r := Duplicated(s, o, pid, -1);
            var after := Served(names, Dups(pid, fd), SLOTS);
            && (if HasRoom(s, names, pid)
                then Sound(r.table) && Shows(r.table, after.0) && r.result == after.1 && after.0.Values == names.Values
                else !Sound(r.table) && r.result == NoMemory)
  {
    FindResolves(s, fd, pid, true, names, -1);
    var i := Find(s, fd, pid, true);
    OwnerOf(s, i);
    DupSoundIff(s, names, pid, fd);
    if HasRoom(s, names, pid) {
      ValuesKept(names, (pid, LeastFd(names, pid, FIRST_FD, SLOTS)), Resolve(names, pid, fd, true).value);
    }
  }

  lemma Dup2Served(s: seq<Slot>, pipes: seq<Pipe>, names: Names, pid: int, fd: int, to: int)
    requires Sound(s) && Shows(s, names) && PipesMatch(pipes, names.Values) && pid >= 0 && to >= 0 && fd != to
    requires Resolve(names, pid, fd, true).Some?
    ensures var o := OwnerIndex(s, Find(s, fd, pid, true));
            && 0 <= o < |s|
            && var r := Duplicated(s, o, pid, to);
            var after := Served(names, Dup2s(pid, fd, to), SLOTS);
            var lost := Replaced(Bump(s, o), to, pid);
            && (if Dup2Room(s, pid, fd, to)
                then && Sound(r.table) && Shows(r.table, after.0) && r.result == after.1
                     && PipesMatch(if lost.Some? then ReleaseObject(pipes, lost.value) else pipes, after.0.Values)
                     && Gone(names, after.0) == (if lost.Some? then {lost.value} else {})
                     && multiset(names.Values) == multiset(after.0.Values) + multiset(Gone(names, after.0))
                else !Sound(r.table))
  {
    hide PipesMatch, Gone, Resolve;
    FindResolves(s, fd, pid, true, names, -1);
    var i := Find(s, fd, pid, true);
    OwnerOf(s, i);
    Dup2SoundIff(s, names, pid, fd, to);
    if Dup2Room(s, pid, fd, to) { Dup2Releases(s, pipes, names, pid, fd, to); }
  }

  lemma ValuesPut(names: Names, key: Key, obj: Obj)
    requires key !in names
    ensures names[key := obj].Values == names.Values + {obj}
  {
    var after := names[key := obj];
    forall o | o in names.Values ensures o in after.Values {
      var k :| k in names && names[k] == o;
      assert after[k] == o;
    }
    assert after[key] == obj;
  }

  lemma ValuesKept(names: Names, key: Key, from: Key)
    requires key !in names && from in names
    ensures names[key := names[from]].Values == names.Values
  {
    ValuesPut(names, key, names[from]);
  }

  /** One object more was opened than is shown or closed. */
  lemma Unbalanced(acquired: multiset<Obj>, closed: multiset<Obj>, live: set<Obj>, obj: Obj)
    requires acquired == closed + multiset(live) + multiset{obj}
    ensures acquired != closed + multiset(live)
  {
    assert acquired[obj] == (closed + multiset(live))[obj] + 1;
  }

  /** What dup2 replaces is closed exactly when it was the last name of another object. */
  lemma Dup2Releases(s: seq<Slot>, pipes: seq<Pipe>, names: Names, pid: int, fd: int, to: int)
    requires Sound(s) && Shows(s, names) && PipesMatch(pipes, names.Values) && pid >= 0 && to >= 0 && fd != to
    requires Dup2Room(s, pid, fd, to) && Resolve(names, pid, fd, true).Some?
    ensures var o := OwnerIndex(s, Find(s, fd, pid, true));
            && 0 <= o < |s|
            && var t := Bump(s, o);
            var e := Find(t, to, pid, false);
            var final := 0 <= e < |t| && Final(t, e);
            var k := Resolve(names, pid, fd, true).value;
            && k in names
            && var after := names[(pid, to) := names[k]];
            && Gone(names, after) == (if final then {t[e].obj} else {})
            && PipesMatch(if final then ReleaseObject(pipes, t[e].obj) else pipes, after.Values)
            && multiset(names.Values) == multiset(after.Values) + multiset(Gone(names, after))
  {
    FindResolves(s, fd, pid, true, names, -1);
    var i := Find(s, fd, pid, true);
    OwnerOf(s, i);
    var o := s[i].owner;
    var t := Bump(s, o);
    BumpSurplus(s, o, names);
    BumpFind(s, o, to, pid, false, 0, -1);
    FindResolves(t, to, pid, false, names, o);
    var e := Find(t, to, pid, false);
    var k := KeyOf(s, i);
    assert names[k] == s[i].obj;
    if e == -1 {
      ValuesKept(names, (pid, to), k);
    } else {
      assert e != o;
      FinalIffLast(t, e, o, names);
      PutReplaces(names, KeyOf(t, e), k);
      if Final(t, e) { ReleaseMatches(pipes, names.Values, t[e].obj); }
    }
  }

  lemma PutReplaces(names: Names, key: Key, from: Key)
    requires key in names && from in names && key != from
    ensures var after := names[key := names[from]];
            var lost := names[key] !in (names - {key}).Values && names[key] != names[from];
            && Gone(names, after) == (if lost then {names[key]} else {})
            && after.Values == (if lost then names.Values - {names[key]} else names.Values)
            && multiset(names.Values) == multiset(after.Values) + multiset(Gone(names, after))
  {
    var after := names[key := names[from]];
    var rest := names - {key};
    assert after[from] == names[from] && rest[from] == names[from];
    forall o ensures o in after.Values <==> o in rest.Values {
      if o in after.Values {
        var k :| k in after && after[k] == o;
        if k != key { assert rest[k] == o; }
      }
      if o in rest.Values {
        var k :| k in rest && rest[k] == o;
        assert after[k] == o;
      }
    }
    forall o ensures o in names.Values <==> o in rest.Values || o == names[key] {
      if o in names.Values {
        var k :| k in names && names[k] == o;
        if k != key { assert rest[k] == o; }
      }
      if o in rest.Values {
        var k :| k in rest && rest[k] == o;
        assert names[k] == o;
      }
    }
    assert after.Values == rest.Values;
    assert multiset(names.Values) == multiset(after.Values) + multiset(Gone(names, after));
  }

  lemma FindNegative(s: seq<Slot>, fd: int, pid: int)
    ensures Find(s, fd, pid, false) < 0 ==> Find(s, fd, pid, false) == -1
  {
    FindUsed(s, fd, pid, false, 0, -1);
  }

  lemma {:induction false} FindUsed(s: seq<Slot>, fd: int, pid: int, globals: bool, i: nat, found: int)
    requires i <= |s| && (found == -1 || Used(s, found))
    ensures var r := FindSlot(s, fd, pid, globals, i, found); r == -1 || Used(s, r)
    decreases |s| - i
  {
    if i < |s| {
      FindUsed(s, fd, pid, globals, i + 1,
               if s[i].used && s[i].fd == fd && globals && s[i].pid == 0 then i else found);
    }
  }

  lemma LiveAfterDrop(names: Names, key: Key, final: bool, obj: Obj)
    requires key in names && names[key] == obj
    requires Gone(names, names - {key}) == if final then {obj} else {}
    ensures (names - {key}).Values == if final then names.Values - {obj} else names.Values
    ensures multiset(names.Values) == multiset((names - {key}).Values) + multiset(Gone(names, names - {key}))
  {
    var rest := names - {key};
    forall o | o in rest.Values ensures o in names.Values {
      var k :| k in rest && rest[k] == o;
      assert names[k] == o;
    }
    assert rest.Values == names.Values - Gone(names, rest);
  }

  /** Everything a table keeps when the descriptor in slot `i` is closed. */
  lemma CloseOne(s: seq<Slot>, pipes: seq<Pipe>, names: Names, i: int)
    requires Sound(s) && Shows(s, names) && PipesMatch(pipes, names.Values) && Named(s, i)
    ensures var rest := names - {KeyOf(s, i)};
            && Sound(CloseAt(s, i)) && Shows(CloseAt(s, i), rest)
            && PipesMatch(if Final(s, i) then ReleaseObject(pipes, s[i].obj) else pipes, rest.Values)
            && Gone(names, rest) == (if Final(s, i) then {s[i].obj} else {})
            && multiset(names.Values) == multiset(rest.Values) + multiset(Gone(names, rest))
  {
    CloseKeepsSound(s, i, -1);
    CloseShows(s, i, -1, names);
    GoneOnDrop(s, names, i, -1);
    LiveAfterDrop(names, KeyOf(s, i), Final(s, i), s[i].obj);
    if Final(s, i) { ReleaseMatches(pipes, names.Values, s[i].obj); }
  }

  // ----- the whole state across each call

  lemma ClosesGone(closed: multiset<Obj>, lost: Option<Obj>, gone: set<Obj>)
    requires gone == if lost.Some? then {lost.value} else {}
    ensures ClosedWith(closed, lost) == closed + multiset(gone)
  {}

  lemma CloseWhole(s: seq<Slot>, pipes: seq<Pipe>, names: Names, acquired: multiset<Obj>, closed: multiset<Obj>, i: int)
    requires Whole(s, pipes, names, acquired, closed) && Named(s, i)
    ensures var lost, rest := LastOf(s, i), names - {KeyOf(s, i)};
            && Whole(CloseAt(s, i), ReleasedWith(pipes, lost), rest, acquired, ClosedWith(closed, lost))
            && ClosedWith(closed, lost) == closed + multiset(Gone(names, rest))
  {
    CloseOne(s, pipes, names, i);
    ClosesGone(closed, LastOf(s, i), Gone(names, names - {KeyOf(s, i)}));
  }

  lemma OpenWhole(s: seq<Slot>, pipes: seq<Pipe>, names: Names, acquired: multiset<Obj>, closed: multiset<Obj>,
          pid: int, obj: Obj)
    requires Whole(s, pipes, names, acquired, closed) && pid >= 0 && obj.File? && obj !in names.Values
    ensures var r, after := InstallNew(s, Opening(pid, obj)), Served(names, Opens(pid, obj), SLOTS);
            && Replaced(s, -1, pid) == None
            && (if HasRoom(s, names, pid)
                then Whole(r.table, pipes, after.0, acquired + multiset{obj}, closed) && r.result == after.1
                else !Whole(r.table, pipes, names, acquired + multiset{obj}, closed) && r.result == NoMemory)
  {
    OpenInstalls(s, names, pid, obj);
    if HasRoom(s, names, pid) {
      FileMatches(pipes, names.Values, obj);
      ValuesPut(names, (pid, LeastFd(names, pid, FIRST_FD, SLOTS)), obj);
    } else {
      Unbalanced(acquired + multiset{obj}, closed, names.Values, obj);
    }
  }

  lemma DupWhole(s: seq<Slot>, pipes: seq<Pipe>, names: Names, acquired: multiset<Obj>, closed: multiset<Obj>,
          pid: int, fd: int)
    requires Whole(s, pipes, names, acquired, closed) && pid >= 0 && Resolve(names, pid, fd, true).Some?
    ensures var o := OwnerIndex(s, Find(s, fd, pid, true));
            && 0 <= o < |s| && Replaced(Bump(s, o), -1, pid) == None
            && var r, after := Duplicated(s, o, pid, -1), Served(names, Dups(pid, fd), SLOTS);
            && (if HasRoom(s, names, pid)
                then Whole(r.table, pipes, after.0, acquired, closed) && r.result == after.1
                else !Whole(r.table, pipes, names, acquired, closed) && r.result == NoMemory)
  {
    DupServed(s, names, pid, fd);
  }

  lemma Dup2Whole(s: seq<Slot>, pipes: seq<Pipe>, names: Names, acquired: multiset<Obj>, closed: multiset<Obj>,
          pid: int, fd: int, to: int)
    requires Whole(s, pipes, names, acquired, closed) && pid >= 0 && to >= 0 && fd != to
    requires Resolve(names, pid, fd, true).Some?
    ensures var o := OwnerIndex(s, Find(s, fd, pid, true));
            && 0 <= o < |s|
            && var r, after := Duplicated(s, o, pid, to), Served(names, Dup2s(pid, fd, to), SLOTS);
            var lost := Replaced(Bump(s, o), to, pid);
            && (if Dup2Room(s, pid, fd, to)
                then && Whole(r.table, ReleasedWith(pipes, lost), after.0, acquired, ClosedWith(closed, lost))
                     && r.result == after.1
                     && ClosedWith(closed, lost) == closed + multiset(Gone(names, after.0))
                else !Sound(r.table))
  {
    Dup2Served(s, pipes, names, pid, fd, to);
    var o := OwnerIndex(s, Find(s, fd, pid, true));
    if Dup2Room(s, pid, fd, to) {
      ClosesGone(closed, Replaced(Bump(s, o), to, pid), Gone(names, Served(names, Dup2s(pid, fd, to), SLOTS).0));
    }
  }

  lemma CloneWhole(s: seq<Slot>, pipes: seq<Pipe>, names: Names, acquired: multiset<Obj>, closed: multiset<Obj>,
          parent: int, child: int)
    requires Whole(s, pipes, names, acquired, closed)
    requires parent > 0 && child > 0 && parent != child && Bare(names, child)
    ensures AllPending(s, names, parent, child, 0)
    ensures var r := CloneFrom(s, parent, child, 0);
            if SlotsFor(s, parent)
            then Whole(r.table, pipes, ClonedMap(names, parent, child), acquired, closed) && r.result == Done
            else !Sound(r.table) && r.result == NoMemory
  {
    CloneServed(s, names, parent, child);
  }

  lemma EmptySound(s: seq<Slot>)
    requires |s| == SLOTS && forall i :: 0 <= i < |s| ==> s[i] == EMPTY
    ensures Sound(s) && Shows(s, map[])
  {
    forall i: int ensures Attached(s, i, -1) {}
    forall i: int ensures Counts(s, i, -1) {}
    forall i: int, j: int ensures OneOwner(s, i, j) {}
    forall i: int, j: int ensures OneKey(s, i, j) {}
  }
}
