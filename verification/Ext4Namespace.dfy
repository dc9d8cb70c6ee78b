/** The ext4 path operations over the namespace of `Ext4Names`: what each returns and leaves
    behind, exactly when it keeps the tree consistent, and what that means for whole runs.
    A path is its list of components between slashes. Here the room in the parent is part of the
    operation; `Ext4Mount` reads it from the directory's blocks. */
module Ext4Namespace {
  import opened Ext4Common
  import opened Ext4Names

  type Path = seq<Name>

  type Failure = s: Status | s != Ok witness NoMemory

  /** What `add_dirent` finds in the parent's blocks: a place, a need to grow the parent, or an
      error from the block layer. */
  datatype Room = Fits | Grows | Refused(why: Failure)

  datatype Super = Super(firstIno: nat, total: nat, blockSize: nat)

  datatype Lookup = Found(ino: nat) | Failed(why: Failure)

  datatype Target = At(dir: nat, name: Name) | Bad(why: Failure)

  datatype Outcome = Outcome(status: Status, tree: Tree)

  /** The operations; `R` is what is known of the room in the parent's blocks. */
  datatype Op<R> =
    | OpCreate(path: Path, room: R)
    | OpSymlink(path: Path, target: seq<int>, room: R)
    | OpMkdir(path: Path, room: R)
    | OpLink(from: Path, path: Path, room: R)
    | OpRemove(path: Path)
    | OpRmdir(path: Path)
    | OpRename(from: Path, path: Path, room: R)

  ghost predicate Good(t: Tree, sb: Super) {
    Consistent(t) && Numbered(t, sb.firstIno)
  }

  // ----- resolving paths

  function LookupChild(t: Tree, d: nat, n: Name): (r: Lookup)
    ensures Edges(t) && r.Found? ==> r.ino in t && NamesAs(t, d, n, r.ino)
    ensures Edges(t) && d in t && r.Failed? ==> n !in t[d].entries
  {
    if !IsDir(t, d) then
      assert d in t && n in t[d].entries ==> Edge(t, d, n, t[d].entries[n]) || !Edges(t);
      Failed(InvalidArgument)
    else if n in t[d].entries then assert Edge(t, d, n, t[d].entries[n]) || !Edges(t); Found(t[d].entries[n])
    else Failed(NotFound)
  }

  /** "." is skipped and ".." refused. */
  function Walk(t: Tree, d: nat, path: Path): (r: Lookup)
    ensures Edges(t) && d in t && r.Found? ==> r.ino in t
    decreases |path|
  {
    if path == [] then Found(d)
    else if path[0] == DOT then Walk(t, d, path[1..])
    else if path[0] == DOTDOT then Failed(NotSupported)
    else
      var next := LookupChild(t, d, path[0]);
      if next.Failed? then next else Walk(t, next.ino, path[1..])
  }

  function Locate(t: Tree, path: Path): (r: Target)
    ensures Edges(t) && ROOT in t && r.At? ==> r.dir in t
  {
    if path == [] then Bad(InvalidArgument)
    else
      var dir := Walk(t, ROOT, path[..|path| - 1]);
      if dir.Failed? then Bad(dir.why) else At(dir.ino, path[|path| - 1])
  }

  /** The lowest usable free inode number from `c` on, or one past the last number. */
  function FreeFrom(t: Tree, sb: Super, c: nat): (r: nat)
    requires c <= sb.total + 1
    ensures c <= r <= sb.total + 1
    ensures r <= sb.total ==> r !in t && (r == ROOT || sb.firstIno <= r)
    ensures forall k: nat :: c <= k < r && (k == ROOT || sb.firstIno <= k) ==> k in t
    decreases sb.total + 1 - c
  {
    if c > sb.total then c
    else if (c == ROOT || sb.firstIno <= c) && c !in t then c
    else FreeFrom(t, sb, c + 1)
  }

  function Free(t: Tree, sb: Super): nat { FreeFrom(t, sb, 1) }

  // ----- what each operation does

  /** Where a new name may be added. Only some callers check the parent to be a directory. */
  function Vacant(t: Tree, path: Path, checked: bool): (r: Target)
    ensures Edges(t) && ROOT in t && r.At? ==>
            r.dir in t && r.name !in t[r.dir].entries && (checked ==> IsDir(t, r.dir))
  {
    match Locate(t, path)
    case Bad(why) => Bad(why)
    case At(p, n) =>
      if checked && !IsDir(t, p) then Bad(InvalidArgument)
      else if LookupChild(t, p, n).Found? then Bad(AlreadyExists)
      else At(p, n)
  }

  function CreateStep(t: Tree, sb: Super, path: Path, room: Room): Outcome
    requires Consistent(t)
  {
    var found := Walk(t, ROOT, path);
    if found.Found? then Outcome(if t[found.ino].kind == Regular then Ok else InvalidArgument, t)
    else if found.why != NotFound then Outcome(found.why, t)
    else
      match Vacant(t, path, true)
      case Bad(why) => Outcome(why, t)
      case At(p, n) =>
        if Free(t, sb) > sb.total then Outcome(NoMemory, t)
        else if room.Refused? then Outcome(room.why, t)
        else Outcome(Ok, Create(t, p, n, Free(t, sb), Regular))
  }

  function SymlinkStep(t: Tree, sb: Super, path: Path, target: seq<int>, room: Room): Outcome
    requires Consistent(t)
  {
    if |target| > 4096 then Outcome(InvalidArgument, t)
    else
      match Vacant(t, path, false)
      case Bad(why) => Outcome(why, t)
      case At(p, n) =>
        if Free(t, sb) > sb.total then Outcome(NoMemory, t)
        else if room.Refused? then Outcome(room.why, t)
        else Outcome(Ok, Create(t, p, n, Free(t, sb), Symlink))
  }

  function MkdirStep(t: Tree, sb: Super, path: Path, room: Room): Outcome
    requires Consistent(t)
  {
    match Vacant(t, path, true)
    case Bad(why) => Outcome(why, t)
    case At(p, n) =>
      if Free(t, sb) > sb.total then Outcome(NoMemory, t)
      else if room.Refused? then Outcome(room.why, t)
      else Outcome(Ok, Mkdir(t, p, n, Free(t, sb)))
  }

  function LinkStep(t: Tree, from: Path, path: Path, room: Room): Outcome
    requires Consistent(t)
  {
    match Walk(t, ROOT, from)
    case Failed(why) => Outcome(why, t)
    case Found(i) =>
      if t[i].kind == Directory then Outcome(InvalidArgument, t)
      else
        match Vacant(t, path, false)
        case Bad(why) => Outcome(why, t)
        case At(q, m) =>
          if room.Refused? then Outcome(room.why, t) else Outcome(Ok, Link(t, q, m, i))
  }

  /** The directory, name and inode that a removal acts on. */
  function Present(t: Tree, path: Path): (r: Removal)
    ensures Edges(t) && ROOT in t && r.Entry? ==> r.ino in t && NamesAs(t, r.dir, r.name, r.ino)
  {
    match Locate(t, path)
    case Bad(why) => Missing(why)
    case At(p, n) =>
      var child := LookupChild(t, p, n);
      if child.Failed? then Missing(child.why) else Entry(p, n, child.ino)
  }

  datatype Removal = Entry(dir: nat, name: Name, ino: nat) | Missing(why: Failure)

  function RemoveStep(t: Tree, path: Path): Outcome
    requires Consistent(t)
  {
    match Present(t, path)
    case Missing(why) => Outcome(why, t)
    case Entry(p, n, i) =>
      if t[i].kind == Directory then Outcome(InvalidArgument, t) else Outcome(Ok, Remove(t, p, n))
  }

  predicate OnlyDotEntries(t: Tree, c: nat)
    requires c in t
  {
    forall m | m in t[c].entries :: Dots(m)
  }

  function RmdirStep(t: Tree, sb: Super, path: Path): Outcome
    requires Consistent(t)
  {
    match Present(t, path)
    case Missing(why) => Outcome(why, t)
    case Entry(p, n, c) =>
      if t[c].kind != Directory then Outcome(NotFound, t)
      else if !OnlyDotEntries(t, c) then Outcome(InvalidArgument, t)
      else Outcome(if c < sb.firstIno then InvalidArgument else Ok, Rmdir(t, p, n, sb.firstIno))
  }

  function RenameStep(t: Tree, from: Path, path: Path, room: Room): Outcome
    requires Consistent(t)
  {
    if from == [] || path == [] then Outcome(InvalidArgument, t)
    else
      var source := Locate(t, from);
      var target := Locate(t, path);
      if source.Bad? then Outcome(source.why, t)
      else if target.Bad? then Outcome(target.why, t)
      else
        var child := LookupChild(t, source.dir, source.name);
        if child.Failed? then Outcome(child.why, t)
        else if LookupChild(t, target.dir, target.name).Found? then Outcome(AlreadyExists, t)
        else if t[child.ino].kind == Directory && source.dir != target.dir then Outcome(NotSupported, t)
        else if room.Refused? then Outcome(room.why, t)
        else Outcome(Ok, Rename(t, source.dir, source.name, target.dir, target.name, room == Fits))
  }

  function Step(t: Tree, sb: Super, op: Op<Room>): Outcome
    requires Consistent(t)
  {
    match op
    case OpCreate(path, room) => CreateStep(t, sb, path, room)
    case OpSymlink(path, target, room) => SymlinkStep(t, sb, path, target, room)
    case OpMkdir(path, room) => MkdirStep(t, sb, path, room)
    case OpLink(from, path, room) => LinkStep(t, from, path, room)
    case OpRemove(path) => RemoveStep(t, path)
    case OpRmdir(path) => RmdirStep(t, sb, path)
    case OpRename(from, path, room) => RenameStep(t, from, path, room)
  }

  // ----- exactly when a step is refused

  /** The number of inodes or the parent's blocks leave no place for a new inode's name. */
  predicate NoPlace(t: Tree, sb: Super, room: Room) { Free(t, sb) > sb.total || room.Refused? }

  predicate CreateRefuses(t: Tree, sb: Super, path: Path, room: Room) {
    var found := Walk(t, ROOT, path);
    found.Found? || found.why != NotFound || Vacant(t, path, true).Bad? || NoPlace(t, sb, room)
  }

  predicate LinkRefuses(t: Tree, from: Path, path: Path, room: Room) {
    var i := Walk(t, ROOT, from);
    i.Failed? || IsDir(t, i.ino) || Vacant(t, path, false).Bad? || room.Refused?
  }

  predicate RemoveRefuses(t: Tree, path: Path) {
    var e := Present(t, path);
    e.Missing? || IsDir(t, e.ino)
  }

  /** Only an empty directory is removed; a reserved one loses its name and is then not freed. */
  predicate RmdirRefuses(t: Tree, path: Path) {
    var e := Present(t, path);
    e.Missing? || !IsDir(t, e.ino) || !OnlyDotEntries(t, e.ino)
  }

  predicate RenameRefuses(t: Tree, from: Path, path: Path, room: Room) {
    var e, v := Present(t, from), Vacant(t, path, false);
    e.Missing? || v.Bad? || (IsDir(t, e.ino) && e.dir != v.dir) || room.Refused?
  }

  /** The guards that send an operation back. */
  predicate Refuses(t: Tree, sb: Super, op: Op<Room>) {
    match op
    case OpCreate(path, room) => CreateRefuses(t, sb, path, room)
    case OpSymlink(path, target, room) =>
      |target| > 4096 || Vacant(t, path, false).Bad? || NoPlace(t, sb, room)
    case OpMkdir(path, room) => Vacant(t, path, true).Bad? || NoPlace(t, sb, room)
    case OpLink(from, path, room) => LinkRefuses(t, from, path, room)
    case OpRemove(path) => RemoveRefuses(t, path)
    case OpRmdir(path) => RmdirRefuses(t, path)
    case OpRename(from, path, room) => RenameRefuses(t, from, path, room)
  }

  /** An operation leaves the tree alone exactly when one of its guards refuses it; otherwise it
      succeeds, but for the removal of a reserved directory. */
  lemma RefusesIff(t: Tree, sb: Super, op: Op<Room>)
    requires Good(t, sb)
    ensures Refuses(t, sb, op) <==> Step(t, sb, op).tree == t
    ensures !Refuses(t, sb, op) && !op.OpRmdir? ==> Step(t, sb, op).status == Ok
  {
    match op {
      case OpRename(from, path, room) => RenameRefusesIff(t, from, path, room);
      case OpLink(from, path, room) => LinkRefusesIff(t, from, path, room);
      case OpRemove(path) => RemoveRefusesIff(t, path);
      case OpRmdir(path) => RmdirRefusesIff(t, sb, path);
      case OpMkdir(path, room) => MkdirRefusesIff(t, sb, path, room);
      case OpCreate(path, room) => CreateRefusesIff(t, sb, path, room);
      case OpSymlink(path, target, room) => SymlinkRefusesIff(t, sb, path, target, room);
    }
  }

  lemma CreateRefusesIff(t: Tree, sb: Super, path: Path, room: Room)
    requires Good(t, sb)
    ensures CreateRefuses(t, sb, path, room) <==> CreateStep(t, sb, path, room).tree == t
    ensures !CreateRefuses(t, sb, path, room) ==> CreateStep(t, sb, path, room).status == Ok
  {
    if !CreateRefuses(t, sb, path, room) {
      assert Free(t, sb) in CreateStep(t, sb, path, room).tree && Free(t, sb) !in t;
    }
  }

  lemma SymlinkRefusesIff(t: Tree, sb: Super, path: Path, target: seq<int>, room: Room)
    requires Good(t, sb)
    ensures Refuses(t, sb, OpSymlink(path, target, room)) <==> SymlinkStep(t, sb, path, target, room).tree == t
    ensures !Refuses(t, sb, OpSymlink(path, target, room)) ==> SymlinkStep(t, sb, path, target, room).status == Ok
  {
    if !Refuses(t, sb, OpSymlink(path, target, room)) {
      assert Free(t, sb) in SymlinkStep(t, sb, path, target, room).tree && Free(t, sb) !in t;
    }
  }

  lemma MkdirRefusesIff(t: Tree, sb: Super, path: Path, room: Room)
    requires Good(t, sb)
    ensures Refuses(t, sb, OpMkdir(path, room)) <==> MkdirStep(t, sb, path, room).tree == t
    ensures !Refuses(t, sb, OpMkdir(path, room)) ==> MkdirStep(t, sb, path, room).status == Ok
  {
    if !Refuses(t, sb, OpMkdir(path, room)) {
      assert Free(t, sb) in MkdirStep(t, sb, path, room).tree && Free(t, sb) !in t;
    }
  }

  lemma LinkRefusesIff(t: Tree, from: Path, path: Path, room: Room)
    requires Consistent(t)
    ensures LinkRefuses(t, from, path, room) <==> LinkStep(t, from, path, room).tree == t
    ensures !LinkRefuses(t, from, path, room) ==> LinkStep(t, from, path, room).status == Ok
  {
    if !LinkRefuses(t, from, path, room) {
      var i := Walk(t, ROOT, from).ino;
      assert Counted(t, i);
      assert LinkStep(t, from, path, room).tree[i].links != t[i].links;
    }
  }

  lemma RemoveRefusesIff(t: Tree, path: Path)
    requires Consistent(t)
    ensures RemoveRefuses(t, path) <==> RemoveStep(t, path).tree == t
    ensures !RemoveRefuses(t, path) ==> RemoveStep(t, path).status == Ok
  {
    var e := Present(t, path);
    if e.Entry? {
      assert Edge(t, e.dir, e.name, e.ino);
      if !RemoveRefuses(t, path) { assert !NamesAs(RemoveStep(t, path).tree, e.dir, e.name, e.ino); }
    }
  }

  lemma RmdirRefusesIff(t: Tree, sb: Super, path: Path)
    requires Good(t, sb)
    ensures RmdirRefuses(t, path) <==> RmdirStep(t, sb, path).tree == t
  {
    var e := Present(t, path);
    if e.Entry? {
      assert Edge(t, e.dir, e.name, e.ino);
      if !RmdirRefuses(t, path) { assert !NamesAs(RmdirStep(t, sb, path).tree, e.dir, e.name, e.ino); }
    }
  }

  lemma RenameRefusesIff(t: Tree, from: Path, path: Path, room: Room)
    requires Consistent(t)
    ensures RenameRefuses(t, from, path, room) <==> RenameStep(t, from, path, room).tree == t
    ensures !RenameRefuses(t, from, path, room) ==> RenameStep(t, from, path, room).status == Ok
  {
    var e, v := Present(t, from), Vacant(t, path, false);
    if e.Entry? && v.At? {
      assert Edge(t, e.dir, e.name, e.ino);
      if !RenameRefuses(t, from, path, room) {
        assert !NamesAs(RenameStep(t, from, path, room).tree, e.dir, e.name, e.ino);
      }
    }
  }

  // ----- exactly when a step is safe

  /** The parent that `path` names, if it resolves, is a directory. */
  predicate ParentIsDir(t: Tree, path: Path) {
    var at := Locate(t, path);
    at.At? && IsDir(t, at.dir)
  }

  predicate SafeMkdir(t: Tree, path: Path) {
    var at := Locate(t, path);
    at.At? && at.dir in t && t[at.dir].links + 1 < LINK_WORD
  }

  predicate SafeLink(t: Tree, from: Path, path: Path) {
    var i := Walk(t, ROOT, from);
    i.Found? && i.ino in t && t[i.ino].links + 1 < LINK_WORD && ParentIsDir(t, path)
  }

  predicate SafeRename(t: Tree, from: Path, path: Path, room: Room) {
    var source := Locate(t, from);
    var target := Locate(t, path);
    source.At? && target.At? && Moves(t, source.name, source.dir, target.dir, room == Fits)
  }

  predicate DotsEnd(path: Path) { path != [] && Dots(path[|path| - 1]) }

  /** What a caller can look at before an operation that goes through. */
  predicate Safe(t: Tree, op: Op<Room>) {
    match op
    case OpCreate(path, room) => true
    case OpSymlink(path, target, room) => ParentIsDir(t, path)
    case OpMkdir(path, room) => SafeMkdir(t, path)
    case OpLink(from, path, room) => SafeLink(t, from, path)
    case OpRemove(path) => true
    case OpRmdir(path) => !DotsEnd(path)
    case OpRename(from, path, room) => SafeRename(t, from, path, room)
  }

  lemma CreateSafe(t: Tree, sb: Super, path: Path, room: Room)
    requires Good(t, sb)
    ensures Good(CreateStep(t, sb, path, room).tree, sb)
  {
    var v := Vacant(t, path, true);
    if v.At? && Free(t, sb) <= sb.total { CreateConsistentIff(t, v.dir, v.name, Free(t, sb), Regular); }
  }

  lemma SymlinkSafeIff(t: Tree, sb: Super, path: Path, target: seq<int>, room: Room)
    requires Good(t, sb) && SymlinkStep(t, sb, path, target, room).status == Ok
    ensures Good(SymlinkStep(t, sb, path, target, room).tree, sb) <==> ParentIsDir(t, path)
  {
    var v := Vacant(t, path, false);
    CreateConsistentIff(t, v.dir, v.name, Free(t, sb), Symlink);
  }

  lemma MkdirSafeIff(t: Tree, sb: Super, path: Path, room: Room)
    requires Good(t, sb) && MkdirStep(t, sb, path, room).status == Ok
    ensures Good(MkdirStep(t, sb, path, room).tree, sb) <==> SafeMkdir(t, path)
  {
    var v := Vacant(t, path, true);
    MkdirConsistentIff(t, v.dir, v.name, Free(t, sb));
  }

  lemma LinkSafeIff(t: Tree, sb: Super, from: Path, path: Path, room: Room)
    requires Good(t, sb) && LinkStep(t, from, path, room).status == Ok
    ensures Good(LinkStep(t, from, path, room).tree, sb) <==> SafeLink(t, from, path)
  {
    var v := Vacant(t, path, false);
    LinkConsistentIff(t, v.dir, v.name, Walk(t, ROOT, from).ino);
  }

  lemma RemoveSafe(t: Tree, sb: Super, path: Path)
    requires Good(t, sb)
    ensures Good(RemoveStep(t, path).tree, sb)
  {
    var e := Present(t, path);
    if e.Entry? && t[e.ino].kind != Directory { RemoveConsistent(t, e.dir, e.name, e.ino); }
  }

  lemma RmdirSafeIff(t: Tree, sb: Super, path: Path)
    requires Good(t, sb) && !RmdirRefuses(t, path)
    ensures Good(RmdirStep(t, sb, path).tree, sb) <==> !DotsEnd(path)
  {
    var e := Present(t, path);
    RmdirConsistentIff(t, e.dir, e.name, e.ino, sb.firstIno);
  }

  lemma RenameSafeIff(t: Tree, sb: Super, from: Path, path: Path, room: Room)
    requires Good(t, sb) && RenameStep(t, from, path, room).status == Ok
    ensures Good(RenameStep(t, from, path, room).tree, sb) <==> SafeRename(t, from, path, room)
  {
    var e := Present(t, from);
    var v := Vacant(t, path, false);
    RenameConsistentIff(t, e.dir, e.name, e.ino, v.dir, v.name, room == Fits);
  }

  /** One step keeps the tree consistent exactly when one of its guards refuses it or it is safe. */
  lemma StepSafeIff(t: Tree, sb: Super, op: Op<Room>)
    requires Good(t, sb)
    ensures Good(Step(t, sb, op).tree, sb) <==> Refuses(t, sb, op) || Safe(t, op)
  {
    RefusesIff(t, sb, op);
    if !Refuses(t, sb, op) {
      match op {
        case OpCreate(path, room) => CreateSafe(t, sb, path, room);
        case OpSymlink(path, target, room) => SymlinkSafeIff(t, sb, path, target, room);
        case OpMkdir(path, room) => MkdirSafeIff(t, sb, path, room);
        case OpLink(from, path, room) => LinkSafeIff(t, sb, from, path, room);
        case OpRemove(path) => RemoveSafe(t, sb, path);
        case OpRmdir(path) => RmdirSafeIff(t, sb, path);
        case OpRename(from, path, room) => RenameSafeIff(t, sb, from, path, room);
      }
    }
  }

  // ----- runs

  /** Every state of the run is consistent. */
  ghost predicate RunGood(t: Tree, sb: Super, ops: seq<Op<Room>>)
    decreases |ops|
  {
    Good(t, sb) && (ops == [] || RunGood(Step(t, sb, ops[0]).tree, sb, ops[1..]))
  }

  /** Every operation of the run is refused by a guard or safe where it comes. */
  ghost predicate RunSafe(t: Tree, sb: Super, ops: seq<Op<Room>>)
    requires Consistent(t)
    decreases |ops|
  {
    ops == [] ||
    var u := Step(t, sb, ops[0]).tree;
    (Refuses(t, sb, ops[0]) || Safe(t, ops[0])) && (Consistent(u) ==> RunSafe(u, sb, ops[1..]))
  }

  /** A run stays consistent throughout exactly when each of its operations is refused or safe. */
  lemma {:induction false} RunGoodIffSafe(t: Tree, sb: Super, ops: seq<Op<Room>>)
    requires Good(t, sb)
    ensures RunGood(t, sb, ops) <==> RunSafe(t, sb, ops)
    decreases |ops|
  {
    if ops != [] {
      var u := Step(t, sb, ops[0]).tree;
      StepSafeIff(t, sb, ops[0]);
      if Good(u, sb) { RunGoodIffSafe(u, sb, ops[1..]); }
    }
  }

  /** In a consistent tree an inode is live exactly while some entry names it, so a safe step
      frees an inode exactly when it takes away the last name. */
  lemma LiveIffNamed(t: Tree, i: nat)
    requires Consistent(t)
    ensures i in t <==> exists d: nat, n: Name :: NamesAs(t, d, n, i)
  {
    InRefs(t, i);
    if i in t {
      assert Counted(t, i);
      assert Refs(t, i) != {};
      var r :| r in Refs(t, i);
      assert NamesAs(t, r.0, r.1, i);
    } else {
      Unnamed(t, i);
    }
  }

  // ----- names an operation does not mention

  /** The entry that an operation may take away. */
  predicate Mentions(t: Tree, op: Op<Room>, d: nat, n: Name) {
    match op
    case OpRemove(path) => Locate(t, path) == At(d, n)
    case OpRmdir(path) => Locate(t, path) == At(d, n)
    case OpRename(from, path, room) => Locate(t, from) == At(d, n)
    case _ => false
  }

  lemma RemovalKeeps(t: Tree, sb: Super, path: Path, d: nat, n: Name, i: nat)
    requires Good(t, sb) && NamesAs(t, d, n, i) && !Dots(n) && Locate(t, path) != At(d, n)
    ensures NamesAs(RemoveStep(t, path).tree, d, n, i) && IsDir(RemoveStep(t, path).tree, d)
    ensures NamesAs(RmdirStep(t, sb, path).tree, d, n, i) && IsDir(RmdirStep(t, sb, path).tree, d)
  {
    assert Edge(t, d, n, i);
    var e := Present(t, path);
    if e.Entry? { assert Edge(t, e.dir, e.name, e.ino); }
  }

  lemma RenameKeeps(t: Tree, from: Path, path: Path, room: Room, d: nat, n: Name, i: nat)
    requires Consistent(t) && NamesAs(t, d, n, i) && !Dots(n) && Locate(t, from) != At(d, n)
    ensures NamesAs(RenameStep(t, from, path, room).tree, d, n, i) && IsDir(RenameStep(t, from, path, room).tree, d)
  {
    assert Edge(t, d, n, i);
  }

  lemma Keeps(t: Tree, sb: Super, op: Op<Room>, d: nat, n: Name, i: nat)
    requires Good(t, sb) && NamesAs(t, d, n, i) && !Dots(n) && !Mentions(t, op, d, n)
    ensures NamesAs(Step(t, sb, op).tree, d, n, i) && IsDir(Step(t, sb, op).tree, d)
  {
    assert Edge(t, d, n, i);
    match op {
      case OpRemove(path) => RemovalKeeps(t, sb, path, d, n, i);
      case OpRmdir(path) => RemovalKeeps(t, sb, path, d, n, i);
      case OpRename(from, path, room) => RenameKeeps(t, from, path, room, d, n, i);
      case _ =>
    }
  }

  /** The walk of `path` from `d` reads an entry that the operation may take away. */
  predicate Passes(t: Tree, d: nat, path: Path, op: Op<Room>)
    decreases |path|
  {
    if path == [] || path[0] == DOTDOT then false
    else if path[0] == DOT then Passes(t, d, path[1..], op)
    else
      var next := LookupChild(t, d, path[0]);
      Mentions(t, op, d, path[0]) || (next.Found? && Passes(t, next.ino, path[1..], op))
  }

  /** A path that does not pass through an entry the operation takes away still resolves to the
      same inode after it. */
  lemma {:induction false} OthersResolve(t: Tree, sb: Super, op: Op<Room>, d: nat, path: Path, i: nat)
    requires Good(t, sb) && Walk(t, d, path) == Found(i) && !Passes(t, d, path, op)
    ensures Walk(Step(t, sb, op).tree, d, path) == Found(i)
    decreases |path|
  {
    if path != [] {
      if path[0] == DOT {
        OthersResolve(t, sb, op, d, path[1..], i);
      } else if path[0] != DOTDOT {
        var next := LookupChild(t, d, path[0]);
        Keeps(t, sb, op, d, path[0], next.ino);
        OthersResolve(t, sb, op, next.ino, path[1..], i);
      }
    }
  }

  // ----- a fresh volume, and a run that goes wrong

  const EMPTY: Tree := map[ROOT := Node(Directory, 2, map[DOT := ROOT, DOTDOT := ROOT])]

  lemma EmptyIsGood(sb: Super)
    ensures Good(EMPTY, sb)
  {
    assert Refs(EMPTY, ROOT) == {(ROOT, DOT), (ROOT, DOTDOT)};
    forall d: nat, n: Name, m: Name, c: nat ensures Alone(EMPTY, d, n, m, c) {}
    forall i: nat | i in EMPTY ensures Counted(EMPTY, i) {}
  }

  const A: Name := [97]

  /** Making "a" and then removing "a/." frees the directory while the root still names it. */
  lemma RmdirDotRun(sb: Super)
    requires sb.firstIno == 11 && sb.total >= 11
    ensures RunGood(EMPTY, sb, [OpMkdir([A], Fits)])
    ensures !RunGood(EMPTY, sb, [OpMkdir([A], Fits), OpRmdir([A, DOT])])
  {
    EmptyIsGood(sb);
    var make, drop := OpMkdir([A], Fits), OpRmdir([A, DOT]);
    assert [A][..0] == [] && [A, DOT][..1] == [A];
    StepSafeIff(EMPTY, sb, make);
    var t := Step(EMPTY, sb, make).tree;
    assert Free(EMPTY, sb) == 11 by { FirstIs11(sb); }
    assert t == Mkdir(EMPTY, ROOT, A, 11);
    assert Walk(t, ROOT, [A]) == Walk(t, 11, [A][1..]);
    assert Present(t, [A, DOT]) == Entry(11, DOT, 11);
    StepSafeIff(t, sb, drop);
    assert !Refuses(t, sb, drop);
    assert [make][1..] == [] && [make, drop][1..] == [drop];
    assert !RunGood(t, sb, [drop]);
  }

  lemma FirstIs11(sb: Super)
    requires sb.firstIno == 11 && sb.total >= 11
    ensures Free(EMPTY, sb) == 11
  {
    var r := Free(EMPTY, sb);
    assert r > 11 ==> 11 in EMPTY;
  }

  const B: Name := [98]

  /** Making the file "a" and then the symlink "a/b" takes an inode that no directory names: that the
      parent is a directory is not looked at. */
  lemma SymlinkUnderFileRun(sb: Super, target: seq<int>)
    requires sb.firstIno == 11 && sb.total >= 12 && |target| <= 4096
    ensures RunGood(EMPTY, sb, [OpCreate([A], Fits)])
    ensures !RunGood(EMPTY, sb, [OpCreate([A], Fits), OpSymlink([A, B], target, Fits)])
  {
    var make, link := OpCreate([A], Fits), OpSymlink([A, B], target, Fits);
    FileMade(sb);
    var t := Step(EMPTY, sb, make).tree;
    assert [A, B][..1] == [A] && Walk(t, ROOT, [A]) == Walk(t, 11, [A][1..]);
    assert Vacant(t, [A, B], false) == At(11, B);
    assert Free(t, sb) > 12 ==> 12 in t;
    StepSafeIff(t, sb, link);
    assert [make][1..] == [] && [make, link][1..] == [link];
    assert !RunGood(t, sb, [link]);
  }

  /** After "a" is made the root holds it as inode 11. */
  lemma FileMade(sb: Super)
    requires sb.firstIno == 11 && sb.total >= 11
    ensures Good(EMPTY, sb) && Good(Step(EMPTY, sb, OpCreate([A], Fits)).tree, sb)
    ensures Step(EMPTY, sb, OpCreate([A], Fits)).tree == Create(EMPTY, ROOT, A, 11, Regular)
  {
    EmptyIsGood(sb);
    FirstIs11(sb);
    assert [A][..0] == [];
    StepSafeIff(EMPTY, sb, OpCreate([A], Fits));
  }

  /** The kth of 65536 names of four letters. */
  function NameOf(k: nat): Name {
    var q1 := k / 16;
    var q2 := q1 / 16;
    [97 + q2 / 16, 97 + q2 % 16, 97 + q1 % 16, 97 + k % 16]
  }

  lemma NamesDiffer(i: nat, j: nat)
    requires NameOf(i) == NameOf(j)
    ensures i == j
  {
    var a, b := NameOf(i), NameOf(j);
    assert a[0] == b[0] && a[1] == b[1] && a[2] == b[2] && a[3] == b[3];
  }

  /** The jth to the last but one of k more links to "a". */
  function LinkOps(j: nat, k: nat): seq<Op<Room>>
    decreases if j < k then k - j else 0
  {
    if j >= k then [] else [OpLink([A], [NameOf(j)], Fits)] + LinkOps(j + 1, k)
  }

  ghost predicate LinkedSoFar(t: Tree, sb: Super, j: nat) {
    && Good(t, sb) && NamesAs(t, ROOT, A, 11) && 11 in t && t[11].kind == Regular && t[11].links == 1 + j
    && forall i: nat {:trigger NameOf(i)} :: j <= i < LINK_WORD ==> NameOf(i) !in t[ROOT].entries
  }

  lemma LinkOne(t: Tree, sb: Super, j: nat)
    requires LinkedSoFar(t, sb, j) && j < LINK_WORD
    ensures var u := Step(t, sb, OpLink([A], [NameOf(j)], Fits)).tree;
            && (Good(u, sb) <==> j + 2 < LINK_WORD) && (Good(u, sb) ==> LinkedSoFar(u, sb, j + 1))
  {
    var op := OpLink([A], [NameOf(j)], Fits);
    assert [NameOf(j)][..0] == [] && Walk(t, ROOT, [A]) == Walk(t, 11, [A][1..]);
    assert Vacant(t, [NameOf(j)], false) == At(ROOT, NameOf(j));
    StepSafeIff(t, sb, op);
    var u := Step(t, sb, op).tree;
    assert u == Link(t, ROOT, NameOf(j), 11);
    forall i: nat {:trigger NameOf(i)} | j + 1 <= i < LINK_WORD ensures NameOf(i) !in u[ROOT].entries {
      if NameOf(i) == NameOf(j) { NamesDiffer(i, j); }
    }
  }

  lemma {:induction false} LinkAll(t: Tree, sb: Super, j: nat, k: nat)
    requires LinkedSoFar(t, sb, j) && j <= k < LINK_WORD
    ensures RunGood(t, sb, LinkOps(j, k)) <==> k + 1 < LINK_WORD || j == k
    decreases k - j
  {
    if j < k {
      LinkOne(t, sb, j);
      var u := Step(t, sb, OpLink([A], [NameOf(j)], Fits)).tree;
      assert LinkOps(j, k)[1..] == LinkOps(j + 1, k);
      if Good(u, sb) { LinkAll(u, sb, j + 1, k); } else { assert !RunGood(u, sb, LinkOps(j + 1, k)); }
    }
  }

  /** A file can be given 65534 more names; with one more its count is back at 0, while 65536 entries
      name it. */
  lemma LinkCountRun(sb: Super)
    requires sb.firstIno == 11 && sb.total >= 11
    ensures RunGood(EMPTY, sb, [OpCreate([A], Fits)] + LinkOps(0, 65534))
    ensures !RunGood(EMPTY, sb, [OpCreate([A], Fits)] + LinkOps(0, 65535))
  {
    hide LinkOps;
    FileMade(sb);
    var make := OpCreate([A], Fits);
    var t := Step(EMPTY, sb, make).tree;
    assert LinkedSoFar(t, sb, 0) by {
      forall i: nat {:trigger NameOf(i)} | i < LINK_WORD ensures NameOf(i) !in t[ROOT].entries {
        assert |NameOf(i)| == 4 && |A| == 1 && |DOT| == 1 && |DOTDOT| == 2;
      }
    }
    LinkAll(t, sb, 0, 65534);
    LinkAll(t, sb, 0, 65535);
    assert ([make] + LinkOps(0, 65534))[1..] == LinkOps(0, 65534);
    assert ([make] + LinkOps(0, 65535))[1..] == LinkOps(0, 65535);
  }
}
