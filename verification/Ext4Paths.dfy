/** What a caller of the path operations sees: where a path leads, which answer an operation gives,
    and where paths lead after one that went through. */
module Ext4Paths {
  import opened Ext4Common
  import opened Ext4Names
  import opened Ext4Namespace

  function Parent(path: Path): Path
    requires path != []
  {
    path[..|path| - 1]
  }

  function Last(path: Path): Name
    requires path != []
  {
    path[|path| - 1]
  }

  // ----- where a path leads

  /** The inodes that a walk visits: "." stays, and any other name but ".." is an entry of a directory. */
  predicate Trail(t: Tree, path: Path, trail: seq<nat>) {
    && |trail| == |path| + 1
    && forall k :: 0 <= k < |path| ==> Hop(t, trail[k], path[k], trail[k + 1])
  }

  predicate Hop(t: Tree, i: nat, n: Name, j: nat) {
    if n == DOT then i == j else n != DOTDOT && IsDir(t, i) && NamesAs(t, i, n, j)
  }

  ghost predicate Leads(t: Tree, d: nat, path: Path, i: nat) {
    exists trail :: Trail(t, path, trail) && trail[0] == d && trail[|path|] == i
  }

  /** The walk gets to the `k`th component and no further, for this reason. */
  ghost predicate StopsAt(t: Tree, d: nat, path: Path, k: nat, why: Failure)
    requires k < |path|
  {
    exists i: nat :: Leads(t, d, path[..k], i) && path[k] != DOT && why == Obstacle(t, i, path[k])
                     && forall j: nat :: !Hop(t, i, path[k], j)
  }

  function Obstacle(t: Tree, i: nat, n: Name): Failure {
    if n == DOTDOT then NotSupported else if !IsDir(t, i) then InvalidArgument else NotFound
  }

  lemma LeadsNext(t: Tree, d: nat, n: Name, e: nat, path: Path, i: nat)
    requires Hop(t, d, n, e) && Leads(t, e, path, i)
    ensures Leads(t, d, [n] + path, i)
  {
    var trail :| Trail(t, path, trail) && trail[0] == e && trail[|path|] == i;
    var longer := [d] + trail;
    forall k | 0 <= k < |path| + 1 ensures Hop(t, longer[k], ([n] + path)[k], longer[k + 1]) {
      if k > 0 { assert Hop(t, trail[k - 1], path[k - 1], trail[k]); }
    }
    assert Trail(t, [n] + path, longer);
  }

  lemma {:induction false} WalkLeads(t: Tree, d: nat, path: Path)
    ensures var r := Walk(t, d, path);
            && (r.Found? ==> Leads(t, d, path, r.ino))
            && (r.Failed? ==> exists k: nat :: k < |path| && StopsAt(t, d, path, k, r.why))
    decreases |path|
  {
    var r := Walk(t, d, path);
    if path == [] {
      assert Trail(t, path, [d]);
    } else {
      var rest := path[1..];
      assert path == [path[0]] + rest;
      if path[0] == DOT || (path[0] != DOTDOT && LookupChild(t, d, path[0]).Found?) {
        var e := if path[0] == DOT then d else LookupChild(t, d, path[0]).ino;
        assert Hop(t, d, path[0], e);
        WalkLeads(t, e, rest);
        if r.Found? {
          LeadsNext(t, d, path[0], e, rest, r.ino);
        } else {
          var k: nat :| k < |rest| && StopsAt(t, e, rest, k, r.why);
          var i: nat :| Leads(t, e, rest[..k], i) && rest[k] != DOT && r.why == Obstacle(t, i, rest[k])
                        && forall j: nat :: !Hop(t, i, rest[k], j);
          assert path[..k + 1] == [path[0]] + rest[..k];
          LeadsNext(t, d, path[0], e, rest[..k], i);
          assert StopsAt(t, d, path, k + 1, r.why);
        }
      } else {
        assert Trail(t, path[..0], [d]);
        assert Leads(t, d, path[..0], d);
        assert StopsAt(t, d, path, 0, r.why);
      }
    }
  }

  lemma {:induction false} LeadsWalks(t: Tree, d: nat, path: Path, trail: seq<nat>)
    requires Trail(t, path, trail) && trail[0] == d
    ensures Walk(t, d, path) == Found(trail[|path|])
    decreases |path|
  {
    if path != [] {
      assert Hop(t, trail[0], path[0], trail[1]);
      var rest := trail[1..];
      forall k | 0 <= k < |path[1..]| ensures Hop(t, rest[k], path[1..][k], rest[k + 1]) {
        assert Hop(t, trail[k + 1], path[k + 1], trail[k + 2]);
      }
      LeadsWalks(t, trail[1], path[1..], rest);
    }
  }

  /** A walk finds the inode that the path leads to; it fails exactly when there is none, with the
      reason of the component that it cannot pass. */
  lemma WalkMeans(t: Tree, d: nat, path: Path)
    ensures forall i: nat :: Walk(t, d, path) == Found(i) <==> Leads(t, d, path, i)
    ensures Walk(t, d, path).Failed? ==>
              exists k: nat :: k < |path| && StopsAt(t, d, path, k, Walk(t, d, path).why)
  {
    WalkLeads(t, d, path);
    forall i: nat | Leads(t, d, path, i) ensures Walk(t, d, path) == Found(i) {
      var trail :| Trail(t, path, trail) && trail[0] == d && trail[|path|] == i;
      LeadsWalks(t, d, path, trail);
    }
  }

  lemma {:induction false} WalkAppend(t: Tree, d: nat, a: Path, b: Path)
    ensures Walk(t, d, a + b) == (if Walk(t, d, a).Failed? then Walk(t, d, a) else Walk(t, Walk(t, d, a).ino, b))
    decreases |a|
  {
    if a == [] {
      assert a + b == b;
    } else {
      assert (a + b)[1..] == a[1..] + b;
      if a[0] == DOT {
        WalkAppend(t, d, a[1..], b);
      } else if a[0] != DOTDOT && LookupChild(t, d, a[0]).Found? {
        WalkAppend(t, LookupChild(t, d, a[0]).ino, a[1..], b);
      }
    }
  }

  /** The last step of a path. */
  lemma LastStep(t: Tree, path: Path)
    requires path != []
    ensures var parent := Walk(t, ROOT, Parent(path));
            Walk(t, ROOT, path) == (if parent.Failed? then parent else Walk(t, parent.ino, [Last(path)]))
    ensures forall d: nat, n: Name :: Walk(t, d, [n]) ==
              if n == DOT then Found(d) else if n == DOTDOT then Failed(NotSupported) else LookupChild(t, d, n)
  {
    assert path == Parent(path) + [Last(path)];
    WalkAppend(t, ROOT, Parent(path), [Last(path)]);
    forall d: nat, n: Name ensures Walk(t, d, [n]) ==
        if n == DOT then Found(d) else if n == DOTDOT then Failed(NotSupported) else LookupChild(t, d, n)
    {
      assert [n][1..] == [];
    }
  }

  // ----- which answer an operation gives

  ghost predicate Exhausted(t: Tree, sb: Super) {
    forall i: nat :: 1 <= i <= sb.total && (i == ROOT || sb.firstIno <= i) ==> i in t
  }

  lemma ExhaustedIff(t: Tree, sb: Super)
    ensures Free(t, sb) > sb.total <==> Exhausted(t, sb)
  {
    if Free(t, sb) <= sb.total { assert Free(t, sb) !in t; }
  }

  /** The answer once only an inode and room for its name are wanted. */
  ghost function PlaceAnswer(t: Tree, sb: Super, room: Room): Status {
    if Exhausted(t, sb) then NoMemory else if room.Refused? then room.why else Ok
  }

  predicate Listed(t: Tree, d: nat, n: Name) { IsDir(t, d) && n in t[d].entries }

  /** The answer of an operation that wants a new name: no name at all, a parent that is not found, one
      that is no directory where that is looked at, and a name that is taken are refused in this order;
      then `otherwise`. */
  ghost function NewNameAnswer(t: Tree, path: Path, checked: bool, otherwise: Status): Status {
    if path == [] then InvalidArgument
    else
      var parent := Walk(t, ROOT, Parent(path));
      if parent.Failed? then parent.why
      else if checked && !IsDir(t, parent.ino) then InvalidArgument
      else if Listed(t, parent.ino, Last(path)) then AlreadyExists
      else otherwise
  }

  /** Creating a file answers Ok where the path leads to one already, and nothing else of that name is
      taken for it. */
  lemma CreateAnswers(t: Tree, sb: Super, path: Path, room: Room)
    requires Good(t, sb)
    ensures var r := CreateStep(t, sb, path, room);
            && (forall i: nat :: Leads(t, ROOT, path, i) && i in t ==>
                  r.tree == t && (r.status == Ok <==> t[i].kind == Regular)
                  && (r.status != Ok ==> r.status == InvalidArgument))
            && var found := Walk(t, ROOT, path);
            && (found.Failed? && found.why != NotFound ==> r == Outcome(found.why, t))
            && (found == Failed(NotFound) ==>
                  && path != [] && (r.status != Ok ==> r.tree == t)
                  && var parent := Walk(t, ROOT, Parent(path));
                  && (parent.Failed? ==> r.status == NotFound)
                  && (parent.Found? ==>
                        IsDir(t, parent.ino) && !Listed(t, parent.ino, Last(path))
                        && r.status == PlaceAnswer(t, sb, room)))
  {
    WalkMeans(t, ROOT, path);
    ExhaustedIff(t, sb);
    if path != [] { LastStep(t, path); }
  }

  /** The status of every other operation is that of the first guard that holds. */
  lemma Answers(t: Tree, sb: Super, op: Op<Room>)
    requires Good(t, sb)
    ensures var status := Step(t, sb, op).status;
            match op
            case OpCreate(_, _) => true
            case OpSymlink(path, target, room) =>
              status == if |target| > 4096 then InvalidArgument
                        else NewNameAnswer(t, path, false, PlaceAnswer(t, sb, room))
            case OpMkdir(path, room) => status == NewNameAnswer(t, path, true, PlaceAnswer(t, sb, room))
            case OpLink(from, path, room) => status == LinkAnswer(t, from, path, room)
            case OpRemove(path) => status == RemoveAnswer(t, path)
            case OpRmdir(path) => status == RmdirAnswer(t, sb, path)
            case OpRename(from, path, room) => status == RenameAnswer(t, from, path, room)
  {
    ExhaustedIff(t, sb);
  }

  /** So none but the creation of a file that is there answers Ok and leaves the tree alone. */
  lemma RefusedIsNotOk(t: Tree, sb: Super, op: Op<Room>)
    requires Good(t, sb) && !op.OpCreate?
    ensures Step(t, sb, op).tree == t ==> Step(t, sb, op).status != Ok
  {
    RefusesIff(t, sb, op);
  }

  ghost function LinkAnswer(t: Tree, from: Path, path: Path, room: Room): Status {
    var source := Walk(t, ROOT, from);
    if source.Failed? then source.why
    else if IsDir(t, source.ino) then InvalidArgument
    else NewNameAnswer(t, path, false, if room.Refused? then room.why else Ok)
  }

  /** The answer of an operation on a name that should be there; then that of the inode it names. */
  ghost function NameAnswer(t: Tree, path: Path): Status {
    if path == [] then InvalidArgument
    else
      var parent := Walk(t, ROOT, Parent(path));
      if parent.Failed? then parent.why
      else if !IsDir(t, parent.ino) then InvalidArgument
      else if Last(path) !in t[parent.ino].entries then NotFound
      else Ok
  }

  /** The inode a path names, in a tree where it does. */
  ghost function NamedIno(t: Tree, path: Path): nat
    requires NameAnswer(t, path) == Ok
  {
    t[Walk(t, ROOT, Parent(path)).ino].entries[Last(path)]
  }

  ghost function RemoveAnswer(t: Tree, path: Path): Status {
    if NameAnswer(t, path) != Ok then NameAnswer(t, path)
    else if IsDir(t, NamedIno(t, path)) then InvalidArgument
    else Ok
  }

  /** A directory with a reserved number loses its name, and the answer is an error all the same. */
  ghost function RmdirAnswer(t: Tree, sb: Super, path: Path): Status {
    if NameAnswer(t, path) != Ok then NameAnswer(t, path)
    else
      var i := NamedIno(t, path);
      if !IsDir(t, i) then NotFound
      else if exists n :: n in t[i].entries && !Dots(n) then InvalidArgument
      else if i < sb.firstIno then InvalidArgument
      else Ok
  }

  ghost function RenameAnswer(t: Tree, from: Path, path: Path, room: Room): Status {
    if from == [] || path == [] then InvalidArgument
    else
      var source, target := Walk(t, ROOT, Parent(from)), Walk(t, ROOT, Parent(path));
      if source.Failed? then source.why
      else if target.Failed? then target.why
      else if NameAnswer(t, from) != Ok then NameAnswer(t, from)
      else if Listed(t, target.ino, Last(path)) then AlreadyExists
      else if IsDir(t, NamedIno(t, from)) && source.ino != target.ino then NotSupported
      else if room.Refused? then room.why
      else Ok
  }

  // ----- what an operation that goes through leaves

  /** The entries are those there were and this one. */
  ghost predicate GainsName(t: Tree, u: Tree, d: nat, n: Name, i: nat) {
    forall e: nat, m: Name, j: nat ::
      NamesAs(u, e, m, j) <==> NamesAs(t, e, m, j) || (e == d && m == n && j == i)
  }

  /** The entries are those there were but this one. */
  ghost predicate LosesName(t: Tree, u: Tree, d: nat, n: Name) {
    forall e: nat, m: Name, j: nat :: NamesAs(u, e, m, j) <==> NamesAs(t, e, m, j) && !(e == d && m == n)
  }

  /** An inode that stays is what it was. */
  predicate KindsKept(t: Tree, u: Tree) {
    forall i :: i in t && i in u ==> u[i].kind == t[i].kind
  }

  lemma LeadsToNew(t: Tree, sb: Super, op: Op<Room>, path: Path, p: nat, i: nat)
    requires Good(t, sb) && (op.OpCreate? || op.OpSymlink? || op.OpMkdir? || op.OpLink?)
    requires path != [] && Walk(t, ROOT, Parent(path)) == Found(p) && !Dots(Last(path))
    requires IsDir(Step(t, sb, op).tree, p) && NamesAs(Step(t, sb, op).tree, p, Last(path), i)
    ensures Leads(Step(t, sb, op).tree, ROOT, path, i)
  {
    var u := Step(t, sb, op).tree;
    NothingPassed(t, ROOT, Parent(path), op);
    OthersResolve(t, sb, op, ROOT, Parent(path), p);
    LastStep(u, path);
    WalkMeans(u, ROOT, path);
  }

  lemma {:induction false} NothingPassed(t: Tree, d: nat, path: Path, op: Op<Room>)
    requires op.OpCreate? || op.OpSymlink? || op.OpMkdir? || op.OpLink?
    ensures !Passes(t, d, path, op)
    decreases |path|
  {
    if path != [] && path[0] == DOT {
      NothingPassed(t, d, path[1..], op);
    } else if path != [] && path[0] != DOTDOT && LookupChild(t, d, path[0]).Found? {
      NothingPassed(t, LookupChild(t, d, path[0]).ino, path[1..], op);
    }
  }

  /** The path leads to a new inode of this kind, the lowest number that was free; it is the one entry
      that has come. */
  ghost predicate Makes(t: Tree, u: Tree, sb: Super, path: Path, kind: Kind) {
    && path != [] && Walk(t, ROOT, Parent(path)).Found?
    && exists i: nat ::
      && i !in t && i <= sb.total && (i == ROOT || sb.firstIno <= i)
      && (forall j: nat :: 1 <= j < i && (j == ROOT || sb.firstIno <= j) ==> j in t)
      && Leads(u, ROOT, path, i) && i in u && u[i].kind == kind && KindsKept(t, u)
      && (kind != Directory ==> GainsName(t, u, Walk(t, ROOT, Parent(path)).ino, Last(path), i))
      && (kind == Directory ==> forall e: nat, m: Name, j: nat ::
            NamesAs(u, e, m, j) <==> MkdirName(t, Walk(t, ROOT, Parent(path)).ino, Last(path), i, e, m, j))
  }

  lemma CreateMakes(t: Tree, sb: Super, path: Path, room: Room)
    requires Good(t, sb) && !Refuses(t, sb, OpCreate(path, room))
    ensures Makes(t, CreateStep(t, sb, path, room).tree, sb, path, Regular)
  {
    var op := OpCreate(path, room);
    var u, v, i := Step(t, sb, op).tree, Vacant(t, path, true), Free(t, sb);
    ProperIn(t, v.dir, v.name);
    forall e: nat, m: Name, j: nat
      ensures NamesAs(u, e, m, j) <==> NamesAs(t, e, m, j) || (e == v.dir && m == v.name && j == i)
    {
      CreateNames(t, v.dir, v.name, i, Regular, e, m, j);
    }
    LeadsToNew(t, sb, op, path, v.dir, i);
  }

  lemma SymlinkMakes(t: Tree, sb: Super, path: Path, target: seq<int>, room: Room)
    requires Good(t, sb) && !Refuses(t, sb, OpSymlink(path, target, room)) && ParentIsDir(t, path)
    ensures Makes(t, SymlinkStep(t, sb, path, target, room).tree, sb, path, Symlink)
  {
    var op := OpSymlink(path, target, room);
    var u, v, i := Step(t, sb, op).tree, Vacant(t, path, false), Free(t, sb);
    ProperIn(t, v.dir, v.name);
    forall e: nat, m: Name, j: nat
      ensures NamesAs(u, e, m, j) <==> NamesAs(t, e, m, j) || (e == v.dir && m == v.name && j == i)
    {
      CreateNames(t, v.dir, v.name, i, Symlink, e, m, j);
    }
    LeadsToNew(t, sb, op, path, v.dir, i);
  }

  lemma MkdirMakes(t: Tree, sb: Super, path: Path, room: Room)
    requires Good(t, sb) && !Refuses(t, sb, OpMkdir(path, room))
    ensures Makes(t, MkdirStep(t, sb, path, room).tree, sb, path, Directory)
  {
    var op := OpMkdir(path, room);
    var u, v, i := Step(t, sb, op).tree, Vacant(t, path, true), Free(t, sb);
    ProperIn(t, v.dir, v.name);
    forall e: nat, m: Name, j: nat ensures NamesAs(u, e, m, j) <==> MkdirName(t, v.dir, v.name, i, e, m, j) {
      MkdirNames(t, v.dir, v.name, i, e, m, j);
    }
    LeadsToNew(t, sb, op, path, v.dir, i);
  }

  /** After a link both paths lead to the one inode, and only the new entry has come. */
  lemma LinkLeads(t: Tree, sb: Super, from: Path, path: Path, room: Room)
    requires Good(t, sb) && !Refuses(t, sb, OpLink(from, path, room)) && ParentIsDir(t, path)
    ensures var u, i := LinkStep(t, from, path, room).tree, Walk(t, ROOT, from).ino;
            && Leads(t, ROOT, from, i) && Leads(u, ROOT, from, i) && Leads(u, ROOT, path, i)
            && path != [] && Walk(t, ROOT, Parent(path)).Found?
            && GainsName(t, u, Walk(t, ROOT, Parent(path)).ino, Last(path), i)
            && u.Keys == t.Keys && KindsKept(t, u)
  {
    var op := OpLink(from, path, room);
    var u, v, i := Step(t, sb, op).tree, Vacant(t, path, false), Walk(t, ROOT, from).ino;
    ProperIn(t, v.dir, v.name);
    forall e: nat, m: Name, j: nat
      ensures NamesAs(u, e, m, j) <==> NamesAs(t, e, m, j) || (e == v.dir && m == v.name && j == i)
    {
      LinkNames(t, v.dir, v.name, i, e, m, j);
    }
    LeadsToNew(t, sb, op, path, v.dir, i);
    NothingPassed(t, ROOT, from, op);
    OthersResolve(t, sb, op, ROOT, from, i);
    WalkMeans(t, ROOT, from);
    WalkMeans(u, ROOT, from);
  }

  // ----- no path leads twice through one directory

  /** How many names a path has besides ".". */
  function Depth(path: Path): nat {
    if path == [] then 0 else Depth(Parent(path)) + if Last(path) == DOT then 0 else 1
  }

  /** In a consistent tree all paths to a directory are equally long. */
  lemma {:induction false} OneDepth(t: Tree, a: Path, b: Path, d: nat)
    requires Consistent(t) && IsDir(t, d) && Walk(t, ROOT, a) == Walk(t, ROOT, b) == Found(d)
    ensures Depth(a) == Depth(b)
    decreases |a| + |b|
  {
    if a != [] { LastStep(t, a); }
    if b != [] { LastStep(t, b); }
    if a != [] && Last(a) == DOT {
      OneDepth(t, Parent(a), b, d);
    } else if b != [] && Last(b) == DOT {
      OneDepth(t, a, Parent(b), d);
    } else {
      if a != [] { assert Edge(t, Walk(t, ROOT, Parent(a)).ino, Last(a), d); }
      if b != [] { assert Edge(t, Walk(t, ROOT, Parent(b)).ino, Last(b), d); }
      if a != [] && b != [] { OneDepth(t, Parent(a), Parent(b), Walk(t, ROOT, Parent(a)).ino); }
    }
  }

  lemma {:induction false} Deeper(path: Path, k: nat)
    requires k < |path| && path[k] != DOT
    ensures Depth(path[..k]) < Depth(path)
    decreases |path|
  {
    if k < |path| - 1 {
      Deeper(Parent(path), k);
      assert Parent(path)[..k] == path[..k];
    } else {
      assert Parent(path) == path[..k];
    }
  }

  /** A walk that reads the entry an operation takes away. */
  lemma {:induction false} PassesAt(t: Tree, d: nat, path: Path, op: Op<Room>, p: nat, n: Name) returns (k: nat)
    requires Passes(t, d, path, op) && forall e: nat, m: Name :: Mentions(t, op, e, m) ==> e == p && m == n
    ensures k < |path| && path[k] == n && !Dots(n) && Walk(t, d, path[..k]) == Found(p)
    decreases |path|
  {
    if path[0] == DOT {
      var j := PassesAt(t, d, path[1..], op, p, n);
      k := j + 1;
      assert path[..k][1..] == path[1..][..j];
    } else if Mentions(t, op, d, path[0]) {
      k := 0;
    } else {
      var j := PassesAt(t, LookupChild(t, d, path[0]).ino, path[1..], op, p, n);
      k := j + 1;
      assert path[..k][1..] == path[1..][..j];
    }
  }

  /** The way to a directory does not pass through the directory's own entries. */
  lemma NotThrough(t: Tree, path: Path, op: Op<Room>, p: nat, n: Name)
    requires Consistent(t) && IsDir(t, p) && Walk(t, ROOT, path) == Found(p)
    requires forall e: nat, m: Name :: Mentions(t, op, e, m) ==> e == p && m == n
    ensures !Passes(t, ROOT, path, op)
  {
    if Passes(t, ROOT, path, op) {
      var k := PassesAt(t, ROOT, path, op, p, n);
      Deeper(path, k);
      OneDepth(t, path[..k], path, p);
    }
  }

  lemma {:induction false} StuckAtFile(t: Tree, i: nat, path: Path)
    requires !IsDir(t, i)
    ensures Walk(t, i, path).Found? ==> Walk(t, i, path).ino == i
    decreases |path|
  {
    if path != [] && path[0] == DOT { StuckAtFile(t, i, path[1..]); }
  }

  /** Nor does it pass through a file. */
  lemma NotThroughFile(t: Tree, path: Path, op: Op<Room>, p: nat, n: Name, i: nat, q: nat)
    requires Consistent(t) && NamesAs(t, p, n, i) && !IsDir(t, i) && IsDir(t, q) && Walk(t, ROOT, path) == Found(q)
    requires forall e: nat, m: Name :: Mentions(t, op, e, m) ==> e == p && m == n
    ensures !Passes(t, ROOT, path, op)
  {
    if Passes(t, ROOT, path, op) {
      var k := PassesAt(t, ROOT, path, op, p, n);
      assert Edge(t, p, n, i);
      assert path == path[..k] + ([n] + path[k + 1..]);
      WalkAppend(t, ROOT, path[..k], [n] + path[k + 1..]);
      assert ([n] + path[k + 1..])[1..] == path[k + 1..];
      StuckAtFile(t, i, path[k + 1..]);
    }
  }

  // ----- what a removal or a rename leaves

  lemma LeadsNowhere(t: Tree, sb: Super, op: Op<Room>, path: Path, p: nat)
    requires Good(t, sb) && path != [] && Walk(t, ROOT, Parent(path)) == Found(p) && !Dots(Last(path))
    requires IsDir(t, p) && forall e: nat, m: Name :: Mentions(t, op, e, m) ==> e == p && m == Last(path)
    requires IsDir(Step(t, sb, op).tree, p) && Last(path) !in Step(t, sb, op).tree[p].entries
    ensures Walk(Step(t, sb, op).tree, ROOT, path) == Failed(NotFound)
  {
    NotThrough(t, Parent(path), op, p, Last(path));
    OthersResolve(t, sb, op, ROOT, Parent(path), p);
    LastStep(Step(t, sb, op).tree, path);
  }

  /** After an unlink the path leads nowhere and no other entry has gone; the inode goes with it unless
      another entry names it. */
  lemma RemoveLeaves(t: Tree, sb: Super, path: Path)
    requires Good(t, sb) && !RemoveRefuses(t, path)
    ensures var u := RemoveStep(t, path).tree;
            && path != [] && Walk(t, ROOT, path).Found? && Walk(u, ROOT, path) == Failed(NotFound)
            && Walk(t, ROOT, Parent(path)).Found?
            && var p, i := Walk(t, ROOT, Parent(path)).ino, Walk(t, ROOT, path).ino;
            && LosesName(t, u, p, Last(path)) && KindsKept(t, u)
            && (forall k: nat :: k != i ==> (k in u <==> k in t))
            && (i in u <==> exists e: nat, m: Name :: NamesAs(t, e, m, i) && !(e == p && m == Last(path)))
  {
    var u, e := RemoveStep(t, path).tree, Present(t, path);
    assert Edge(t, e.dir, e.name, e.ino);
    LastStep(t, path);
    forall d: nat, m: Name, j: nat
      ensures NamesAs(u, d, m, j) <==> NamesAs(t, d, m, j) && !(d == e.dir && m == e.name)
    {
      RemoveNames(t, e.dir, e.name, e.ino, d, m, j);
    }
    RemoveSafe(t, sb, path);
    LiveIffNamed(u, e.ino);
    assert !NamesAs(u, e.dir, e.name, e.ino);
    LeadsNowhere(t, sb, OpRemove(path), path, e.dir);
  }

  /** After an rmdir the path leads nowhere, the directory is gone with its two entries, and no other
      inode or entry has gone. */
  lemma RmdirLeaves(t: Tree, sb: Super, path: Path)
    requires Good(t, sb) && !RmdirRefuses(t, path) && !DotsEnd(path)
    ensures var r := RmdirStep(t, sb, path);
            && path != [] && Walk(t, ROOT, path).Found? && Walk(r.tree, ROOT, path) == Failed(NotFound)
            && Walk(t, ROOT, Parent(path)).Found? && r.status == Ok
            && var p, c := Walk(t, ROOT, Parent(path)).ino, Walk(t, ROOT, path).ino;
            && r.tree.Keys == t.Keys - {c} && KindsKept(t, r.tree)
            && forall e: nat, m: Name, j: nat :: NamesAs(r.tree, e, m, j) <==>
                 NamesAs(t, e, m, j) && e != c && !(e == p && m == Last(path))
  {
    var u, e := RmdirStep(t, sb, path).tree, Present(t, path);
    assert Edge(t, e.dir, e.name, e.ino);
    LastStep(t, path);
    assert e.ino != e.dir;
    forall d: nat, m: Name, j: nat ensures NamesAs(u, d, m, j) <==>
        NamesAs(t, d, m, j) && d != e.ino && !(d == e.dir && m == e.name)
    {
      RmdirNames(t, e.dir, e.name, e.ino, sb.firstIno, d, m, j);
    }
    LeadsNowhere(t, sb, OpRmdir(path), path, e.dir);
  }

  /** After a rename the new path leads where the old one did, the old one leads nowhere, and no other
      entry has come or gone. */
  lemma RenameLeads(t: Tree, sb: Super, from: Path, path: Path, room: Room)
    requires Good(t, sb) && !Refuses(t, sb, OpRename(from, path, room)) && SafeRename(t, from, path, room)
    ensures var u := RenameStep(t, from, path, room).tree;
            && from != [] && path != [] && Walk(t, ROOT, from).Found?
            && Leads(u, ROOT, path, Walk(t, ROOT, from).ino) && Walk(u, ROOT, from) == Failed(NotFound)
            && Walk(t, ROOT, Parent(from)).Found? && Walk(t, ROOT, Parent(path)).Found?
            && var p, q, c := Walk(t, ROOT, Parent(from)).ino, Walk(t, ROOT, Parent(path)).ino, Walk(t, ROOT, from).ino;
            && u.Keys == t.Keys && KindsKept(t, u)
            && forall e: nat, m: Name, j: nat :: NamesAs(u, e, m, j) <==>
                 (NamesAs(t, e, m, j) && !(e == p && m == Last(from))) || (e == q && m == Last(path) && j == c)
  {
    var op := OpRename(from, path, room);
    var u, e, v := Step(t, sb, op).tree, Present(t, from), Vacant(t, path, false);
    assert Edge(t, e.dir, e.name, e.ino);
    LastStep(t, from);
    ProperIn(t, v.dir, v.name);
    forall d: nat, m: Name, j: nat ensures NamesAs(u, d, m, j) <==>
        (NamesAs(t, d, m, j) && !(d == e.dir && m == e.name)) || (d == v.dir && m == v.name && j == e.ino)
    {
      RenameNames(t, e.dir, e.name, e.ino, v.dir, v.name, room == Fits, d, m, j);
    }
    LeadsNowhere(t, sb, op, from, e.dir);
    if IsDir(t, e.ino) {
      NotThrough(t, Parent(path), op, e.dir, e.name);
    } else {
      NotThroughFile(t, Parent(path), op, e.dir, e.name, e.ino, v.dir);
    }
    OthersResolve(t, sb, op, ROOT, Parent(path), v.dir);
    assert NamesAs(u, v.dir, v.name, e.ino);
    LastStep(u, path);
    WalkMeans(u, ROOT, path);
  }
}
