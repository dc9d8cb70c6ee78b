/** Dispatch of tasks to cores: the interleaved steps of the select, switch, yield, sleep, finish
    and release protocol, with the flags `running` and `on_cpu`, the saved contexts, and the one
    scheduler context that each core keeps. Steps under the task lock are atomic. */
module Scheduler {
  const SERVICE := 0   // the service core
  const ANY := -1      // a task without a core of its own

  datatype Option<T> = None | Some(value: T)

  /** What a task's context record holds: nothing yet, a point to resume at, or the leftovers of a
      resumed one that is yet to be saved again. */
  datatype Context = Blank | Saved | InUse

  /** `home` is the core that first entered the task: its entry routine remembers that core. */
  datatype Task = Task(live: bool, running: bool, onCpu: bool, finished: bool, context: Context,
                       home: nat, target: int, wake: nat)

  /** What a core does: looks for a task, has claimed one, has marked it on_cpu, executes the task
      on top of its stack, is about to save and leave it, the same for good, is back in the
      scheduler, or has settled the flags; or it has jumped to a context already resumed. */
  datatype Phase =
    | Looking | Claimed(task: nat) | Owned(task: nat) | Executing | Saving | Exiting
    | Back(task: nat) | Settled(task: nat) | Lost

  /** The scheduler context of a core: saved with `depth` tasks beneath, for the dispatch of `task`. */
  datatype Frame = Frame(depth: nat, task: nat)

  /** `stack` are the tasks entered on the core and not left, the innermost last: a task that yields
      while the lock is taken dispatches another on top of itself. */
  datatype Core = Core(phase: Phase, stack: seq<nat>, current: Option<nat>, sched: Option<Frame>, last: nat)

  datatype State = State(tasks: seq<Task>, cores: seq<Core>, now: nat, workers: bool)

  // ----- selection

  predicate Matches(k: Task, core: nat, now: nat, workers: bool) {
    && k.live && !k.finished && !k.running && !k.onCpu && k.wake <= now
    && (if k.target == ANY then (workers ==> core != SERVICE) else k.target == core)
  }

  /** The first matching task from the `offset`th on, counting cyclically from `start`. */
  function PickFrom(tasks: seq<Task>, core: nat, now: nat, workers: bool, start: nat, offset: nat): (r: Option<nat>)
    requires |tasks| > 0 && offset <= |tasks|
    ensures r.Some? ==> r.value < |tasks| && Matches(tasks[r.value], core, now, workers)
    decreases |tasks| - offset
  {
    if offset == |tasks| then None
    else
      var i := (start + offset) % |tasks|;
      if Matches(tasks[i], core, now, workers) then Some(i) else PickFrom(tasks, core, now, workers, start, offset + 1)
  }

  function Pick(tasks: seq<Task>, core: nat, now: nat, workers: bool, last: nat): (r: Option<nat>)
    ensures r.Some? ==> r.value < |tasks| && Matches(tasks[r.value], core, now, workers)
  {
    if |tasks| == 0 then None else PickFrom(tasks, core, now, workers, (last + 1) % |tasks|, 0)
  }

  // ----- steps

  datatype Step =
    | Tick(now: nat)
    | Spawn(task: nat, target: int)
    | Select(core: nat)
    | MarkOwned(core: nat)
    | Switch(core: nat)
    | Yield(core: nat)
    | Sleep(core: nat, until: nat)
    | Nest(core: nat)
    | SaveSwitch(core: nat)
    | Finish(core: nat)
    | ExitSwitch(core: nat)
    | Settle(core: nat)
    | Release(core: nat)

  function Top(k: Core): nat
    requires k.stack != []
  {
    k.stack[|k.stack| - 1]
  }

  predicate InPhase(s: State, c: nat, phase: Phase) { c < |s.cores| && s.cores[c].phase == phase }

  /** The core executes the task on top of its stack. */
  predicate Runs(s: State, c: nat, phase: Phase) {
    InPhase(s, c, phase) && s.cores[c].stack != [] && Top(s.cores[c]) < |s.tasks|
  }

  predicate Enabled(s: State, step: Step) {
    match step
    case Tick(now) => s.now <= now
    case Spawn(t, target) => t < |s.tasks| && (!s.tasks[t].live || (s.tasks[t].finished && !s.tasks[t].running))
    case Select(c) => InPhase(s, c, Looking)
    case MarkOwned(c) => c < |s.cores| && s.cores[c].phase.Claimed? && s.cores[c].phase.task < |s.tasks|
    case Switch(c) => c < |s.cores| && s.cores[c].phase.Owned? && s.cores[c].phase.task < |s.tasks|
    case Yield(c) => Runs(s, c, Executing) && s.cores[c].current == Some(Top(s.cores[c]))
    case Sleep(c, until) => Runs(s, c, Executing) && s.cores[c].current == Some(Top(s.cores[c]))
    case Nest(c) => Runs(s, c, Executing)   // it joins a task on the service core, or yields while the lock is taken
    case SaveSwitch(c) => Runs(s, c, Saving)
    case Finish(c) => Runs(s, c, Executing) && s.tasks[Top(s.cores[c])].home < |s.cores|
    case ExitSwitch(c) => Runs(s, c, Exiting)
    case Settle(c) => c < |s.cores| && s.cores[c].phase.Back? && s.cores[c].phase.task < |s.tasks|
    case Release(c) => c < |s.cores| && s.cores[c].phase.Settled? && s.cores[c].phase.task < |s.tasks|
  }

  function Put(s: State, t: nat, k: Task, c: nat, core: Core): State
    requires t < |s.tasks| && c < |s.cores|
  {
    s.(tasks := s.tasks[t := k], cores := s.cores[c := core])
  }

  /** The routine that looked for a task goes on: the main loop, or the task it was nested in. */
  function Resume(k: Core): Phase { if k.stack == [] then Looking else Executing }

  function SelectOn(s: State, c: nat): State
    requires c < |s.cores|
  {
    var k := s.cores[c];
    match Pick(s.tasks, c, s.now, s.workers, k.last)
    case None => s.(cores := s.cores[c := k.(phase := Resume(k))])
    case Some(u) => Put(s, u, s.tasks[u].(running := true), c, k.(phase := Claimed(u), current := Some(u), last := u))
  }

  /** A task never run before gets its entry point as context, and this core as its home. */
  function MarkOn(s: State, c: nat, u: nat): State
    requires c < |s.cores| && u < |s.tasks|
  {
    var t := s.tasks[u];
    var ready := if t.context == Blank then t.(context := Saved, home := c) else t;
    Put(s, u, ready.(onCpu := true), c, s.cores[c].(phase := Owned(u)))
  }

  function SwitchTo(s: State, c: nat, u: nat): State
    requires c < |s.cores| && u < |s.tasks|
  {
    var k := s.cores[c];
    Put(s, u, s.tasks[u].(context := InUse), c,
        k.(phase := Executing, stack := k.stack + [u], sched := Some(Frame(|k.stack|, u))))
  }

  /** Saves the task on top and resumes the scheduler context, which must be the one that
      dispatched this very task, and unused; then the core is back in the scheduler. */
  function LeaveTop(s: State, c: nat, sound: bool): State
    requires c < |s.cores| && s.cores[c].stack != [] && Top(s.cores[c]) < |s.tasks|
  {
    var k := s.cores[c];
    var t := Top(k);
    var depth := |k.stack| - 1;
    var core := if sound && k.sched == Some(Frame(depth, t))
                then k.(phase := Back(t), stack := k.stack[..depth], sched := None)
                else k.(phase := Lost);
    Put(s, t, s.tasks[t].(context := Saved), c, core)
  }

  function Apply(s: State, step: Step): State
    requires Enabled(s, step)
  {
    match step
    case Tick(now) => s.(now := now)
    case Spawn(t, target) =>
      s.(tasks := s.tasks[t := Task(true, false, false, false, Blank, 0, target, 0)])
    case Select(c) => SelectOn(s, c)
    case MarkOwned(c) => MarkOn(s, c, s.cores[c].phase.task)
    case Switch(c) => SwitchTo(s, c, s.cores[c].phase.task)
    case Yield(c) =>
      var t := Top(s.cores[c]);
      Put(s, t, s.tasks[t].(running := false), c, s.cores[c].(phase := Saving, current := None))
    case Sleep(c, until) =>
      var t := Top(s.cores[c]);
      Put(s, t, s.tasks[t].(running := false, wake := until), c, s.cores[c].(phase := Saving, current := None))
    case Nest(c) => s.(cores := s.cores[c := s.cores[c].(phase := Looking)])
    case SaveSwitch(c) => LeaveTop(s, c, true)
    case Finish(c) =>
      var t := Top(s.cores[c]);
      var home := s.tasks[t].home;
      var cores := s.cores[c := s.cores[c].(phase := Exiting)];
      s.(tasks := s.tasks[t := s.tasks[t].(finished := true)], cores := cores[home := cores[home].(current := None)])
    case ExitSwitch(c) => LeaveTop(s, c, s.tasks[Top(s.cores[c])].home == c)
    case Settle(c) =>
      var u := s.cores[c].phase.task;
      var t := s.tasks[u];
      Put(s, u, if t.finished && t.running then t.(running := false) else t, c, s.cores[c].(phase := Settled(u)))
    case Release(c) =>
      var u := s.cores[c].phase.task;
      Put(s, u, s.tasks[u].(onCpu := false), c, s.cores[c].(phase := Resume(s.cores[c])))
  }

  // ----- the invariant

  /** The task the core handles in the scheduler, before entering it or after leaving it. */
  function Front(p: Phase): Option<nat> {
    match p
    case Claimed(t) => Some(t)
    case Owned(t) => Some(t)
    case Back(t) => Some(t)
    case Settled(t) => Some(t)
    case _ => None
  }

  predicate Holds(s: State, c: nat, t: nat) {
    c < |s.cores| && (t in s.cores[c].stack || Front(s.cores[c].phase) == Some(t))
  }

  /** An entered task runs on its core's stack; only the one on top may be leaving. */
  ghost predicate Entered(s: State, k: Core, i: nat) {
    i < |k.stack| ==>
      && k.stack[i] < |s.tasks|
      && var t := s.tasks[k.stack[i]];
      && t.live && t.onCpu && t.context == InUse
      && (t.running <==> !(i == |k.stack| - 1 && k.phase == Saving))
      && (t.finished <==> i == |k.stack| - 1 && k.phase == Exiting)
      && t.home < |s.cores|
  }

  ghost predicate FrontOk(s: State, p: Phase) {
    match p
    case Claimed(u) => u < |s.tasks| && s.tasks[u].live && s.tasks[u].running && !s.tasks[u].finished &&
      s.tasks[u].context != InUse
    case Owned(u) => u < |s.tasks| && s.tasks[u].live && s.tasks[u].running && s.tasks[u].onCpu && !s.tasks[u].finished
                     && s.tasks[u].context == Saved && s.tasks[u].home < |s.cores|
    case Back(u) => u < |s.tasks| && s.tasks[u].live && s.tasks[u].onCpu && s.tasks[u].context == Saved
                    && (s.tasks[u].running ==> s.tasks[u].finished)
    case Settled(u) => u < |s.tasks| && s.tasks[u].live && s.tasks[u].onCpu && s.tasks[u].context == Saved &&
      !s.tasks[u].running
    case _ => true
  }

  ghost predicate SchedOk(k: Core) {
    && (k.sched.Some? ==> k.stack != [] && k.sched == Some(Frame(|k.stack| - 1, Top(k))))
    && (k.phase.Executing? || k.phase.Saving? || k.phase.Exiting? ==> k.stack != [])
    && (k.phase == Saving ==> k.sched.Some?)
    && (k.phase.Back? || k.phase.Settled? ==> k.sched == None && k.current == None)
    && (k.phase.Claimed? || k.phase.Owned? ==> k.current == None || k.current == Some(k.phase.task))
    && (k.phase.Executing? || k.phase.Looking? ==>
          k.current == None || (k.sched.Some? && k.current == Some(k.sched.value.task)))
    && (k.phase == Saving ==> k.current == None)
  }

  ghost predicate Distinct(k: Core) {
    && (forall i, j :: 0 <= i < j < |k.stack| ==> k.stack[i] != k.stack[j])
    && (forall i :: 0 <= i < |k.stack| ==> Front(k.phase) != Some(k.stack[i]))
  }

  /** A task that finishes at home has cleared what its core thinks is current. */
  ghost predicate ExitOk(s: State, c: nat)
    requires c < |s.cores|
  {
    var k := s.cores[c];
    Runs(s, c, Exiting) && s.tasks[Top(k)].home == c ==> k.current == None
  }

  ghost predicate CoreOk(s: State, c: nat) {
    c < |s.cores| ==>
      && s.cores[c].phase != Lost
      && (forall i: nat :: Entered(s, s.cores[c], i))
      && FrontOk(s, s.cores[c].phase) && SchedOk(s.cores[c]) && Distinct(s.cores[c]) && ExitOk(s, c)
  }

  /** A context in use belongs to a task that is on a core. */
  ghost predicate TaskOk(s: State, t: nat) {
    t < |s.tasks| && s.tasks[t].context == InUse ==> s.tasks[t].onCpu
  }

  ghost predicate Homed(s: State, t: nat) {
    t < |s.tasks| && s.tasks[t].context == Saved ==> s.tasks[t].home < |s.cores|
  }

  /** A marked task is on some core. */
  ghost predicate Marked(s: State, t: nat) {
    t < |s.tasks| && (s.tasks[t].running || s.tasks[t].onCpu) ==> exists c: nat :: Holds(s, c, t)
  }

  ghost predicate Apart(s: State, c: nat, d: nat, t: nat) {
    c != d && Holds(s, c, t) ==> !Holds(s, d, t)
  }

  ghost predicate Inv(s: State) {
    && (forall c: nat :: CoreOk(s, c))
    && (forall t: nat :: TaskOk(s, t) && Homed(s, t))
    && (forall t: nat :: Marked(s, t))
    && (forall c: nat, d: nat, t: nat :: Apart(s, c, d, t))
  }

  // ----- what the invariant gives

  lemma HeldIsMarked(s: State, c: nat, t: nat)
    requires Inv(s) && Holds(s, c, t)
    ensures t < |s.tasks| && s.tasks[t].live && (s.tasks[t].running || s.tasks[t].onCpu)
  {
    assert CoreOk(s, c);
    var k := s.cores[c];
    if t in k.stack {
      var i: nat :| i < |k.stack| && k.stack[i] == t;
      assert Entered(s, k, i);
    }
  }

  /** What a step may do to the cores it is not about: clear what they think is current. */
  ghost predicate CoreSame(s: State, s': State, d: nat) {
    d < |s.cores| && d < |s'.cores| ==> s'.cores[d] == s.cores[d] || s'.cores[d] == s.cores[d].(current := None)
  }

  lemma CoreKept(s: State, s': State, d: nat, t: nat)
    requires CoreOk(s, d) && |s'.cores| == |s.cores| && |s'.tasks| == |s.tasks| && CoreSame(s, s', d)
    requires !Holds(s, d, t) && forall x :: 0 <= x < |s.tasks| && x != t ==> s'.tasks[x] == s.tasks[x]
    ensures CoreOk(s', d)
  {
    if d < |s.cores| {
      forall i: nat ensures Entered(s', s'.cores[d], i) { assert Entered(s, s.cores[d], i); }
    }
  }

  /** A step that touches one core and one task, which no other core holds. */
  lemma OneCoreStep(s: State, s': State, c: nat, t: nat)
    requires Inv(s) && c < |s.cores| && t < |s.tasks| && |s'.cores| == |s.cores| && |s'.tasks| == |s.tasks|
    requires forall d: nat :: d != c ==> CoreSame(s, s', d) && !Holds(s, d, t)
    requires forall x :: 0 <= x < |s.tasks| && x != t ==> s'.tasks[x] == s.tasks[x]
    requires CoreOk(s', c) && TaskOk(s', t) && Homed(s', t)
    requires forall x: nat :: x != t ==> (Holds(s', c, x) <==> Holds(s, c, x))
    requires s'.tasks[t].running || s'.tasks[t].onCpu ==> Holds(s', c, t)
    ensures Inv(s')
  {
    forall d: nat ensures CoreOk(s', d) {
      if d != c {
        assert CoreSame(s, s', d) && CoreOk(s, d);
        CoreKept(s, s', d, t);
      }
    }
    forall x: nat ensures TaskOk(s', x) && Homed(s', x) { assert TaskOk(s, x) && Homed(s, x); }
    forall a: nat, b: nat, x: nat ensures Apart(s', a, b, x) {
      assert Apart(s, a, b, x);
      assert CoreSame(s, s', a) || a == c;
      assert CoreSame(s, s', b) || b == c;
    }
    MarksKept(s, s', c, t);
  }

  lemma MarksKept(s: State, s': State, c: nat, t: nat)
    requires (forall x: nat :: Marked(s, x)) && |s'.cores| == |s.cores| && |s'.tasks| == |s.tasks|
    requires forall d: nat :: d != c ==> CoreSame(s, s', d)
    requires forall x :: 0 <= x < |s.tasks| && x != t ==> s'.tasks[x] == s.tasks[x]
    requires forall x: nat :: x != t ==> (Holds(s', c, x) <==> Holds(s, c, x))
    requires t < |s.tasks| && (s'.tasks[t].running || s'.tasks[t].onCpu) ==> Holds(s', c, t)
    ensures forall x: nat :: Marked(s', x)
  {
    forall x: nat ensures Marked(s', x) {
      assert Marked(s, x);
      if x != t && x < |s.tasks| && (s.tasks[x].running || s.tasks[x].onCpu) {
        var d: nat :| Holds(s, d, x);
        assert CoreSame(s, s', d) || d == c;
        assert Holds(s', d, x);
      }
    }
  }

  lemma NotElsewhere(s: State, c: nat, t: nat)
    requires Inv(s) && Holds(s, c, t)
    ensures forall d: nat :: d != c ==> !Holds(s, d, t)
  {
    forall d: nat | d != c ensures !Holds(s, d, t) { assert Apart(s, c, d, t); }
  }

  lemma UnmarkedIsFree(s: State, t: nat)
    requires Inv(s) && t < |s.tasks| && !s.tasks[t].running && !s.tasks[t].onCpu
    ensures forall d: nat :: !Holds(s, d, t)
  {
    forall d: nat ensures !Holds(s, d, t) {
      if Holds(s, d, t) { HeldIsMarked(s, d, t); }
    }
  }

  // ----- every step keeps the invariant

  lemma EnteredSame(s: State, s': State, k: Core, k': Core)
    requires |s'.tasks| == |s.tasks| && |s'.cores| == |s.cores| && k'.stack == k.stack
    requires !k.phase.Saving? && !k.phase.Exiting? && !k'.phase.Saving? && !k'.phase.Exiting?
    requires forall x :: 0 <= x < |s.tasks| && x in k.stack ==> s'.tasks[x] == s.tasks[x]
    requires forall i: nat :: Entered(s, k, i)
    ensures forall i: nat :: Entered(s', k', i)
  {
    forall i: nat ensures Entered(s', k', i) { assert Entered(s, k, i); }
  }

  lemma FrontNotEntered(s: State, c: nat, u: nat)
    requires Inv(s) && c < |s.cores| && Front(s.cores[c].phase) == Some(u)
    ensures u !in s.cores[c].stack && Holds(s, c, u) && FrontOk(s, s.cores[c].phase)
  {
    assert CoreOk(s, c);
  }

  lemma SelectNone(s: State, c: nat)
    requires Inv(s) && InPhase(s, c, Looking)
    ensures var k := s.cores[c];
            Inv(s.(cores := s.cores[c := k.(phase := Resume(k))]))
  {
    var k := s.cores[c];
    var s' := s.(cores := s.cores[c := k.(phase := Resume(k))]);
    assert CoreOk(s, c);
    EnteredSame(s, s', k, s'.cores[c]);
    NoTaskStep(s, s', c);
  }

  lemma SelectSome(s: State, c: nat, u: nat)
    requires Inv(s) && InPhase(s, c, Looking) && u < |s.tasks| && s.tasks[u].live && !s.tasks[u].finished
    requires !s.tasks[u].running && !s.tasks[u].onCpu
    ensures var k := s.cores[c];
            Inv(Put(s, u, s.tasks[u].(running := true), c, k.(phase := Claimed(u), current := Some(u), last := u)))
  {
    var k := s.cores[c];
    var s' := Put(s, u, s.tasks[u].(running := true), c, k.(phase := Claimed(u), current := Some(u), last := u));
    UnmarkedIsFree(s, u);
    assert CoreOk(s, c) && TaskOk(s, u) && Homed(s, u);
    assert !Holds(s, c, u);
    EnteredSame(s, s', k, s'.cores[c]);
    OneCoreStep(s, s', c, u);
  }

  lemma SelectKeeps(s: State, c: nat)
    requires Inv(s) && Enabled(s, Select(c))
    ensures Inv(Apply(s, Select(c)))
  {
    match Pick(s.tasks, c, s.now, s.workers, s.cores[c].last)
    case None => SelectNone(s, c);
    case Some(u) => SelectSome(s, c, u);
  }

  lemma MarkKeeps(s: State, c: nat)
    requires Inv(s) && Enabled(s, MarkOwned(c))
    ensures Inv(Apply(s, MarkOwned(c)))
  {
    var u := s.cores[c].phase.task;
    var s' := MarkOn(s, c, u);
    FrontNotEntered(s, c, u);
    NotElsewhere(s, c, u);
    assert CoreOk(s, c) && Homed(s, u);
    EnteredSame(s, s', s.cores[c], s'.cores[c]);
    OneCoreStep(s, s', c, u);
  }

  /** The context that is restored was saved, and not in use. */
  lemma SwitchRestoresSaved(s: State, c: nat)
    requires Inv(s) && Enabled(s, Switch(c))
    ensures s.tasks[s.cores[c].phase.task].context == Saved
  {
    assert CoreOk(s, c);
  }

  lemma SwitchKeeps(s: State, c: nat)
    requires Inv(s) && Enabled(s, Switch(c))
    ensures Inv(Apply(s, Switch(c)))
  {
    var u := s.cores[c].phase.task;
    var s' := SwitchTo(s, c, u);
    FrontNotEntered(s, c, u);
    NotElsewhere(s, c, u);
    assert CoreOk(s, c);
    var k, k' := s.cores[c], s'.cores[c];
    forall i: nat ensures Entered(s', k', i) {
      assert Entered(s, k, i);
      if i < |k.stack| { assert k'.stack[i] == k.stack[i]; }
    }
    OneCoreStep(s, s', c, u);
  }

  lemma TopEntered(s: State, c: nat)
    requires Inv(s) && c < |s.cores| && s.cores[c].stack != []
    ensures Entered(s, s.cores[c], |s.cores[c].stack| - 1) && Holds(s, c, Top(s.cores[c]))
    ensures forall i :: 0 <= i < |s.cores[c].stack| - 1 ==> s.cores[c].stack[i] != Top(s.cores[c])
  {
    assert CoreOk(s, c);
  }

  lemma StopKeeps(s: State, c: nat, wake: nat)
    requires Inv(s) && Enabled(s, Yield(c))
    ensures var t := Top(s.cores[c]);
            Inv(Put(s, t, s.tasks[t].(running := false, wake := wake), c,
                s.cores[c].(phase := Saving, current := None)))
  {
    var t := Top(s.cores[c]);
    var s' := Put(s, t, s.tasks[t].(running := false, wake := wake), c, s.cores[c].(phase := Saving, current := None));
    TopEntered(s, c);
    NotElsewhere(s, c, t);
    assert CoreOk(s, c);
    var k, k' := s.cores[c], s'.cores[c];
    forall i: nat ensures Entered(s', k', i) { assert Entered(s, k, i); }
    OneCoreStep(s, s', c, t);
  }

  lemma YieldKeeps(s: State, c: nat)
    requires Inv(s) && Enabled(s, Yield(c))
    ensures Inv(Apply(s, Yield(c)))
  {
    StopKeeps(s, c, s.tasks[Top(s.cores[c])].wake);
  }

  lemma NestKeeps(s: State, c: nat)
    requires Inv(s) && Enabled(s, Nest(c))
    ensures Inv(Apply(s, Nest(c)))
  {
    var s' := Apply(s, Nest(c));
    assert CoreOk(s, c);
    EnteredSame(s, s', s.cores[c], s'.cores[c]);
    NoTaskStep(s, s', c);
  }

  lemma FinishKeeps(s: State, c: nat)
    requires Inv(s) && Enabled(s, Finish(c))
    ensures Inv(Apply(s, Finish(c)))
  {
    var s' := Apply(s, Finish(c));
    var t := Top(s.cores[c]);
    TopEntered(s, c);
    NotElsewhere(s, c, t);
    assert CoreOk(s, c);
    var k, k' := s.cores[c], s'.cores[c];
    assert k' == k.(phase := Exiting) || k' == k.(phase := Exiting, current := None);
    forall i: nat ensures Entered(s', k', i) { assert Entered(s, k, i); }
    OneCoreStep(s, s', c, t);
  }

  /** Leaving the top task keeps the invariant exactly when its frame is there to return to. */
  lemma LeaveKeepsIff(s: State, c: nat, sound: bool)
    requires Inv(s) && (Runs(s, c, Saving) || Runs(s, c, Exiting))
    requires s.cores[c].current == None || !sound
    ensures Inv(LeaveTop(s, c, sound)) <==> sound && s.cores[c].sched.Some?
  {
    var t := Top(s.cores[c]);
    var s' := LeaveTop(s, c, sound);
    TopEntered(s, c);
    NotElsewhere(s, c, t);
    assert CoreOk(s, c);
    var k, k' := s.cores[c], s'.cores[c];
    if sound && k.sched.Some? {
      forall i: nat ensures Entered(s', k', i) {
        assert Entered(s, k, i);
        if i < |k'.stack| { assert k'.stack[i] == k.stack[i]; }
      }
      OneCoreStep(s, s', c, t);
    } else {
      assert !CoreOk(s', c);
    }
  }

  lemma SettleKeeps(s: State, c: nat)
    requires Inv(s) && Enabled(s, Settle(c))
    ensures Inv(Apply(s, Settle(c)))
  {
    var u := s.cores[c].phase.task;
    var s' := Apply(s, Settle(c));
    FrontNotEntered(s, c, u);
    NotElsewhere(s, c, u);
    assert CoreOk(s, c) && Homed(s, u);
    EnteredSame(s, s', s.cores[c], s'.cores[c]);
    OneCoreStep(s, s', c, u);
  }

  lemma ReleaseKeeps(s: State, c: nat)
    requires Inv(s) && Enabled(s, Release(c))
    ensures Inv(Apply(s, Release(c)))
  {
    var u := s.cores[c].phase.task;
    var s' := Apply(s, Release(c));
    FrontNotEntered(s, c, u);
    NotElsewhere(s, c, u);
    assert CoreOk(s, c) && Homed(s, u);
    EnteredSame(s, s', s.cores[c], s'.cores[c]);
    OneCoreStep(s, s', c, u);
  }

  lemma NoTaskStep(s: State, s': State, c: nat)
    requires Inv(s) && c < |s.cores| && |s'.cores| == |s.cores| && s'.tasks == s.tasks
    requires forall d: nat :: d != c && d < |s.cores| ==> s'.cores[d] == s.cores[d]
    requires CoreOk(s', c)
    requires forall x: nat :: Holds(s', c, x) <==> Holds(s, c, x)
    ensures Inv(s')
  {
    forall d: nat ensures CoreOk(s', d) {
      assert CoreOk(s, d);
      if d != c && d < |s.cores| {
        forall i: nat ensures Entered(s', s'.cores[d], i) { assert Entered(s, s.cores[d], i); }
      }
    }
    forall x: nat ensures TaskOk(s', x) && Homed(s', x) { assert TaskOk(s, x) && Homed(s, x); }
    forall a: nat, b: nat, x: nat ensures Apart(s', a, b, x) { assert Apart(s, a, b, x); }
    MarksKept(s, s', c, |s.tasks|);
  }

  lemma TickKeeps(s: State, now: nat)
    requires Inv(s)
    ensures Inv(s.(now := now))
  {
    var s' := s.(now := now);
    forall d: nat ensures CoreOk(s', d) {
      assert CoreOk(s, d);
      if d < |s.cores| {
        forall i: nat ensures Entered(s', s'.cores[d], i) { assert Entered(s, s.cores[d], i); }
      }
    }
    forall x: nat ensures TaskOk(s', x) && Homed(s', x) { assert TaskOk(s, x) && Homed(s, x); }
    forall a: nat, b: nat, x: nat ensures Apart(s', a, b, x) { assert Apart(s, a, b, x); }
    forall x: nat ensures Marked(s', x) {
      assert Marked(s, x);
      if x < |s.tasks| && (s.tasks[x].running || s.tasks[x].onCpu) {
        var d: nat :| Holds(s, d, x);
        assert Holds(s', d, x);
      }
    }
  }

  lemma SpawnFreeKeeps(s: State, t: nat, target: int)
    requires Inv(s) && Enabled(s, Spawn(t, target)) && !s.tasks[t].onCpu && !s.tasks[t].running
    ensures Inv(Apply(s, Spawn(t, target)))
  {
    var s' := Apply(s, Spawn(t, target));
    UnmarkedIsFree(s, t);
    forall d: nat ensures CoreOk(s', d) {
      assert CoreOk(s, d) && !Holds(s, d, t);
      CoreKept(s, s', d, t);
    }
    forall x: nat ensures TaskOk(s', x) && Homed(s', x) { assert TaskOk(s, x) && Homed(s, x); }
    forall a: nat, b: nat, x: nat ensures Apart(s', a, b, x) { assert Apart(s, a, b, x); }
    forall x: nat ensures Marked(s', x) {
      assert Marked(s, x);
      if x != t && x < |s.tasks| && (s.tasks[x].running || s.tasks[x].onCpu) {
        var d: nat :| Holds(s, d, x);
        assert Holds(s', d, x);
      }
    }
  }

  /** A free slot that is still marked is being released by a core, which would go on to clear the
      new task's mark: taking a slot is safe exactly when it is not marked. */
  lemma SpawnKeepsIff(s: State, t: nat, target: int)
    requires Inv(s) && Enabled(s, Spawn(t, target))
    ensures Inv(Apply(s, Spawn(t, target))) <==> !s.tasks[t].onCpu
  {
    var s' := Apply(s, Spawn(t, target));
    assert Marked(s, t);
    if s.tasks[t].onCpu || s.tasks[t].running {
      var d: nat :| Holds(s, d, t);
      HeldIsMarked(s, d, t);
      assert Holds(s', d, t);
      if Inv(s') { HeldIsMarked(s', d, t); }
    } else {
      SpawnFreeKeeps(s, t, target);
    }
  }

  // ----- every step, and every run

  /** The steps that the protocol cannot take at any time: taking a slot whose last task is still
      being released, and leaving a finished task on another core than the one it was first
      entered on, or after a dispatch nested in it has used up the scheduler context. */
  predicate Safe(s: State, step: Step)
    requires Enabled(s, step)
  {
    match step
    case Spawn(t, target) => !s.tasks[t].onCpu
    case ExitSwitch(c) => s.tasks[Top(s.cores[c])].home == c && s.cores[c].sched.Some?
    case _ => true
  }

  lemma ExitKeepsIff(s: State, c: nat)
    requires Inv(s) && Enabled(s, ExitSwitch(c))
    ensures Inv(Apply(s, ExitSwitch(c))) <==> Safe(s, ExitSwitch(c))
  {
    assert CoreOk(s, c);
    LeaveKeepsIff(s, c, s.tasks[Top(s.cores[c])].home == c);
  }

  lemma SaveKeeps(s: State, c: nat)
    requires Inv(s) && Enabled(s, SaveSwitch(c))
    ensures Inv(Apply(s, SaveSwitch(c)))
  {
    assert CoreOk(s, c);
    LeaveKeepsIff(s, c, true);
  }

  /** One step keeps the invariant exactly when it is safe. */
  lemma StepKeepsIff(s: State, step: Step)
    requires Inv(s) && Enabled(s, step)
    ensures Inv(Apply(s, step)) <==> Safe(s, step)
  {
    match step {
      case Tick(now) => TickKeeps(s, now);
      case Spawn(t, target) => SpawnKeepsIff(s, t, target);
      case Select(c) => SelectKeeps(s, c);
      case MarkOwned(c) => MarkKeeps(s, c);
      case Switch(c) => SwitchKeeps(s, c);
      case Yield(c) => YieldKeeps(s, c);
      case Sleep(c, until) => StopKeeps(s, c, until);
      case Nest(c) => NestKeeps(s, c);
      case SaveSwitch(c) => SaveKeeps(s, c);
      case Finish(c) => FinishKeeps(s, c);
      case ExitSwitch(c) => ExitKeepsIff(s, c);
      case Settle(c) => SettleKeeps(s, c);
      case Release(c) => ReleaseKeeps(s, c);
    }
  }

  /** The run can be taken, from state to state. */
  predicate Runnable(s: State, steps: seq<Step>)
    decreases |steps|
  {
    steps == [] || (Enabled(s, steps[0]) && Runnable(Apply(s, steps[0]), steps[1..]))
  }

  ghost predicate InvAlong(s: State, steps: seq<Step>)
    requires Runnable(s, steps)
    decreases |steps|
  {
    Inv(s) && (steps == [] || InvAlong(Apply(s, steps[0]), steps[1..]))
  }

  predicate SafeAlong(s: State, steps: seq<Step>)
    requires Runnable(s, steps)
    decreases |steps|
  {
    steps == [] || (Safe(s, steps[0]) && SafeAlong(Apply(s, steps[0]), steps[1..]))
  }

  /** Every state of an interleaving of any length keeps the invariant exactly when each of its
      steps is safe. */
  lemma {:induction false} RunKeepsIff(s: State, steps: seq<Step>)
    requires Inv(s) && Runnable(s, steps)
    ensures InvAlong(s, steps) <==> SafeAlong(s, steps)
    decreases |steps|
  {
    if steps != [] {
      StepKeepsIff(s, steps[0]);
      if Safe(s, steps[0]) { RunKeepsIff(Apply(s, steps[0]), steps[1..]); }
    }
  }

  /** What the invariant means: no task is on two cores, a task on a core is marked, no core has
      gone astray, and a context about to be restored is a saved one. */
  lemma InvIsSafety(s: State, c: nat, d: nat, t: nat)
    requires Inv(s) && c < |s.cores|
    ensures Holds(s, c, t) && Holds(s, d, t) ==> c == d
    ensures Holds(s, c, t) ==> t < |s.tasks| && (s.tasks[t].running || s.tasks[t].onCpu)
    ensures s.cores[c].phase != Lost
    ensures s.cores[c].phase == Owned(t) ==> t < |s.tasks| && s.tasks[t].context == Saved
  {
    assert Apart(s, c, d, t) && CoreOk(s, c);
    if Holds(s, c, t) { HeldIsMarked(s, c, t); }
  }

  /** The state at start: empty slots, cores in their loops. */
  predicate Start(s: State) {
    && (forall t | 0 <= t < |s.tasks| :: s.tasks[t] == Task(false, false, false, false, Blank, 0, ANY, 0))
    && (forall c | 0 <= c < |s.cores| :: s.cores[c].phase == Looking && s.cores[c].stack == []
                                          && s.cores[c].current == None && s.cores[c].sched == None)
  }

  lemma StartInv(s: State)
    requires Start(s)
    ensures Inv(s)
  {
    forall c: nat ensures CoreOk(s, c) {}
    forall t: nat ensures TaskOk(s, t) && Homed(s, t) && Marked(s, t) {}
    forall c: nat, d: nat, t: nat ensures Apart(s, c, d, t) {}
  }

  // ----- runs that never go wrong

  /** Without nested dispatch a core's stack holds at most the task it dispatched from its loop. */
  ghost predicate QuietCore(s: State, c: nat) {
    c < |s.cores| ==>
      var k := s.cores[c];
      && |k.stack| <= 1
      && (k.phase.Executing? || k.phase.Saving? || k.phase.Exiting? <==> k.stack != [])
      && (k.stack != [] ==> k.sched.Some?)
      && (Runs(s, c, Exiting) ==> s.tasks[Top(k)].home == c)
  }

  ghost predicate Quiet(s: State) { Inv(s) && forall c: nat :: QuietCore(s, c) }

  /** A step that a careful system takes: no dispatch inside a task, no slot taken while it is
      marked, and tasks finish on the core that first entered them. */
  predicate Careful(s: State, step: Step)
    requires Enabled(s, step)
  {
    match step
    case Spawn(t, target) => !s.tasks[t].onCpu
    case Nest(c) => false
    case Finish(c) => s.tasks[Top(s.cores[c])].home == c
    case _ => true
  }

  predicate CarefulAlong(s: State, steps: seq<Step>)
    requires Runnable(s, steps)
    decreases |steps|
  {
    steps == [] || (Careful(s, steps[0]) && CarefulAlong(Apply(s, steps[0]), steps[1..]))
  }

  lemma CarefulIsSafe(s: State, step: Step)
    requires Quiet(s) && Enabled(s, step) && Careful(s, step)
    ensures Safe(s, step)
  {
    if step.ExitSwitch? { assert QuietCore(s, step.core); }
  }

  /** The core that a step is about, if any. */
  function CoreOf(step: Step): Option<nat> {
    match step
    case Tick(_) => None
    case Spawn(_, _) => None
    case Select(c) => Some(c)
    case MarkOwned(c) => Some(c)
    case Switch(c) => Some(c)
    case Yield(c) => Some(c)
    case Sleep(c, _) => Some(c)
    case Nest(c) => Some(c)
    case SaveSwitch(c) => Some(c)
    case Finish(c) => Some(c)
    case ExitSwitch(c) => Some(c)
    case Settle(c) => Some(c)
    case Release(c) => Some(c)
  }

  lemma OthersQuiet(s: State, step: Step, d: nat)
    requires Quiet(s) && Enabled(s, step) && Careful(s, step) && CoreOf(step) != Some(d)
    ensures QuietCore(Apply(s, step), d)
  {
    assert QuietCore(s, d) && CoreOk(s, d);
    if d < |s.cores| && s.cores[d].stack != [] {
      TopEntered(s, d);
      if CoreOf(step).Some? && CoreOf(step).value < |s.cores| {
        var c := CoreOf(step).value;
        assert CoreOk(s, c) && QuietCore(s, c) && Apart(s, c, d, Top(s.cores[d]));
      }
    }
  }

  lemma OwnQuiet(s: State, step: Step, c: nat)
    requires Quiet(s) && Enabled(s, step) && Careful(s, step) && CoreOf(step) == Some(c)
    ensures QuietCore(Apply(s, step), c)
  {
    assert QuietCore(s, c) && CoreOk(s, c);
  }

  /** In a careful run nothing goes wrong, whatever the interleaving. */
  lemma {:induction false} CarefulRunsAreSafe(s: State, steps: seq<Step>)
    requires Quiet(s) && Runnable(s, steps) && CarefulAlong(s, steps)
    ensures InvAlong(s, steps)
    decreases |steps|
  {
    if steps != [] {
      var s' := Apply(s, steps[0]);
      CarefulIsSafe(s, steps[0]);
      StepKeepsIff(s, steps[0]);
      forall d: nat ensures QuietCore(s', d) {
        if CoreOf(steps[0]) == Some(d) { OwnQuiet(s, steps[0], d); } else { OthersQuiet(s, steps[0], d); }
      }
      CarefulRunsAreSafe(s', steps[1..]);
    }
  }

  lemma StartQuiet(s: State)
    requires Start(s)
    ensures Quiet(s)
  {
    StartInv(s);
    forall c: nat ensures QuietCore(s, c) {}
  }

  /** From the state at start, every careful run keeps the invariant. */
  lemma CarefulFromStart(s: State, steps: seq<Step>)
    requires Start(s) && Runnable(s, steps) && CarefulAlong(s, steps)
    ensures InvAlong(s, steps)
  {
    StartQuiet(s);
    CarefulRunsAreSafe(s, steps);
  }

  // ----- what the steps of a task mean to the others

  /** Has a core that could take it, whatever the time. */
  predicate Wanted(k: Task, core: nat, workers: bool) {
    k.live && !k.finished && (if k.target == ANY then (workers ==> core != SERVICE) else k.target == core)
  }

  /** A new task can be chosen at any time by its own core and by no other, or, without a core of its own,
      by every core except the service core while workers run. */
  lemma SpawnMeans(s: State, t: nat, target: int)
    requires Enabled(s, Spawn(t, target))
    ensures var s' := Apply(s, Spawn(t, target));
            && (forall d: nat, now: nat, workers: bool ::
                  Matches(s'.tasks[t], d, now, workers) <==>
                  d == target || (target == ANY && !(workers && d == SERVICE)))
            && s'.tasks[t].context == Blank && OnlyTask(s, s', t)
            && s'.cores == s.cores
  {}

  /** Of the tasks at most this one has changed, and the clock not at all. */
  predicate OnlyTask(s: State, s': State, t: nat) {
    && |s'.tasks| == |s.tasks| && s'.now == s.now && s'.workers == s.workers
    && forall x :: 0 <= x < |s.tasks| && x != t ==> s'.tasks[x] == s.tasks[x]
  }

  /** While its context is being saved no core can choose the task that yields; afterwards the cores
      that wanted it before can, from the time they could. */
  lemma YieldMeans(s: State, c: nat)
    requires Inv(s) && Enabled(s, Yield(c))
    ensures var s', t := Apply(s, Yield(c)), Top(s.cores[c]);
            && Inv(s') && Holds(s', c, t) && OnlyTask(s, s', t)
            && (forall d: nat, now: nat, workers: bool :: !Matches(s'.tasks[t], d, now, workers))
            && forall d: nat, now: nat, workers: bool ::
                 Matches(s'.tasks[t].(onCpu := false), d, now, workers) <==>
                 Wanted(s.tasks[t], d, workers) && s.tasks[t].wake <= now
  {
    TopEntered(s, c);
    YieldKeeps(s, c);
  }

  /** Nor the task that sleeps; once the save is complete the cores that wanted it can choose it from its
      time on and not before. */
  lemma SleepMeans(s: State, c: nat, until: nat)
    requires Inv(s) && Enabled(s, Sleep(c, until))
    ensures var s', t := Apply(s, Sleep(c, until)), Top(s.cores[c]);
            && Inv(s') && Holds(s', c, t) && OnlyTask(s, s', t)
            && (forall d: nat, now: nat, workers: bool :: !Matches(s'.tasks[t], d, now, workers))
            && forall d: nat, now: nat, workers: bool ::
                 Matches(s'.tasks[t].(onCpu := false), d, now, workers) <==>
                 Wanted(s.tasks[t], d, workers) && until <= now
  {
    TopEntered(s, c);
    StopKeeps(s, c, until);
  }

  /** A finished task is never chosen again, whatever becomes of its flags. */
  lemma FinishMeans(s: State, c: nat)
    requires Inv(s) && Enabled(s, Finish(c))
    ensures var s', t := Apply(s, Finish(c)), Top(s.cores[c]);
            && Inv(s') && Holds(s', c, t)
            && forall d: nat, now: nat, workers: bool, running: bool, onCpu: bool ::
                 !Matches(s'.tasks[t].(running := running, onCpu := onCpu), d, now, workers)
  {
    TopEntered(s, c);
    FinishKeeps(s, c);
  }

  /** A released task is on no core, its context is saved, and it can be chosen exactly by the cores
      that want it, from its time on. */
  lemma ReleaseMeans(s: State, c: nat)
    requires Inv(s) && Enabled(s, Settle(c))
    ensures var mid, u := Apply(s, Settle(c)), s.cores[c].phase.task;
            && Enabled(mid, Release(c))
            && var s' := Apply(mid, Release(c));
            && Inv(s') && s'.tasks[u].context == Saved
            && (forall d: nat :: !Holds(s', d, u))
            && forall d: nat, now: nat, workers: bool ::
                 Matches(s'.tasks[u], d, now, workers) <==> Wanted(s'.tasks[u], d, workers) && s'.tasks[u].wake <= now
  {
    assert CoreOk(s, c);
    SettleKeeps(s, c);
    var mid := Apply(s, Settle(c));
    assert CoreOk(mid, c);
    ReleaseKeeps(mid, c);
    UnmarkedIsFree(Apply(mid, Release(c)), s.cores[c].phase.task);
  }

  // ----- waiting

  /** How many tasks come before task `i` in the next selection. */
  function Distance(n: nat, last: nat, i: nat): nat
    requires i < n
  {
    var start := (last + 1) % n;
    if start <= i then i - start else i + n - start
  }

  lemma AtDistance(n: nat, last: nat, i: nat)
    requires i < n
    ensures Distance(n, last, i) < n
    ensures ((last + 1) % n + Distance(n, last, i)) % n == i
  {}

  /** The offset at which a task is found is its distance. */
  lemma OffsetIsDistance(n: nat, last: nat, offset: nat)
    requires offset < n
    ensures Distance(n, last, ((last + 1) % n + offset) % n) == offset
  {
    var start := (last + 1) % n;
    if start + offset < n {
    } else {
      assert start + offset - n < n;
      assert (start + offset) % n == start + offset - n by { ModOnce(start + offset, n); }
    }
  }

  lemma ModOnce(a: nat, n: nat)
    requires 0 < n <= a < 2 * n
    ensures a % n == a - n
  {}

  lemma {:induction false} PickFromNearest(tasks: seq<Task>, core: nat, now: nat, workers: bool, last: nat,
          offset: nat, i: nat)
    requires i < |tasks| && Matches(tasks[i], core, now, workers) && offset <= Distance(|tasks|, last, i)
    ensures var r := PickFrom(tasks, core, now, workers, (last + 1) % |tasks|, offset);
            r.Some? && Distance(|tasks|, last, r.value) <= Distance(|tasks|, last, i)
    decreases |tasks| - offset
  {
    var n := |tasks|;
    AtDistance(n, last, i);
    OffsetIsDistance(n, last, offset);
    var at := ((last + 1) % n + offset) % n;
    if !Matches(tasks[at], core, now, workers) {
      PickFromNearest(tasks, core, now, workers, last, offset + 1, i);
    }
  }

  /** A selection finds a task exactly when one matches, and then the one that comes first after the
      last one chosen. */
  lemma PickFindsIff(tasks: seq<Task>, core: nat, now: nat, workers: bool, last: nat)
    ensures var r := Pick(tasks, core, now, workers, last);
            && (r.Some? <==> exists t :: 0 <= t < |tasks| && Matches(tasks[t], core, now, workers))
            && forall t: nat :: t < |tasks| && Matches(tasks[t], core, now, workers) && r.Some? ==>
                 Distance(|tasks|, last, r.value) <= Distance(|tasks|, last, t)
  {
    forall t: nat | t < |tasks| && Matches(tasks[t], core, now, workers)
      ensures var r := Pick(tasks, core, now, workers, last);
              r.Some? && Distance(|tasks|, last, r.value) <= Distance(|tasks|, last, t)
    {
      PickFromNearest(tasks, core, now, workers, last, 0, t);
    }
  }

  /** Choosing another task brings task `i` nearer. */
  lemma NearerAfter(n: nat, last: nat, i: nat, j: nat)
    requires i < n && j < n && i != j && Distance(n, last, j) <= Distance(n, last, i)
    ensures Distance(n, j, i) < Distance(n, last, i)
  {
    NextMod(j, n);
    Cyclic((last + 1) % n, n, i, j, (j + 1) % n);
  }

  lemma NextMod(j: nat, n: nat)
    requires j < n
    ensures (j + 1) % n == if j + 1 < n then j + 1 else 0
  {}

  lemma Cyclic(start: nat, n: nat, i: nat, j: nat, next: nat)
    requires start < n && i < n && j < n && i != j && next == if j + 1 < n then j + 1 else 0
    requires (if start <= j then j - start else j + n - start) <= (if start <= i then i - start else i + n - start)
    ensures (if next <= i then i - next else i + n - next) < (if start <= i then i - start else i + n - start)
  {}

  /** How often core `c` selects in a run. */
  function Selections(steps: seq<Step>, c: nat): nat {
    if steps == [] then 0 else (if steps[0] == Select(c) then 1 else 0) + Selections(steps[1..], c)
  }

  /** Task `i` matches core `c` whenever the core selects, until it is chosen. */
  predicate StaysEligible(s: State, steps: seq<Step>, c: nat, i: nat)
    requires Runnable(s, steps)
    decreases |steps|
  {
    steps == [] ||
    ((steps[0] == Select(c) ==> i < |s.tasks| && Matches(s.tasks[i], c, s.now, s.workers))
     && (Chooses(s, steps[0], c, i) || StaysEligible(Apply(s, steps[0]), steps[1..], c, i)))
  }

  predicate Chooses(s: State, step: Step, c: nat, i: nat) {
    step == Select(c) && c < |s.cores| && Pick(s.tasks, c, s.now, s.workers, s.cores[c].last) == Some(i)
  }

  predicate Dispatched(s: State, steps: seq<Step>, c: nat, i: nat)
    requires Runnable(s, steps)
    decreases |steps|
  {
    steps != [] && (Chooses(s, steps[0], c, i) || Dispatched(Apply(s, steps[0]), steps[1..], c, i))
  }

  lemma LastKept(s: State, step: Step, c: nat)
    requires Enabled(s, step) && step != Select(c) && c < |s.cores|
    ensures var s' := Apply(s, step);
            |s'.tasks| == |s.tasks| && |s'.cores| == |s.cores| && s'.cores[c].last == s.cores[c].last
  {}

  lemma SelectLast(s: State, c: nat, i: nat)
    requires Enabled(s, Select(c)) && i < |s.tasks| && Matches(s.tasks[i], c, s.now, s.workers)
    requires !Chooses(s, Select(c), c, i)
    ensures var s' := Apply(s, Select(c));
            && |s'.tasks| == |s.tasks| && |s'.cores| == |s.cores|
            && Distance(|s.tasks|, s'.cores[c].last, i) < Distance(|s.tasks|, s.cores[c].last, i)
  {
    var last := s.cores[c].last;
    PickFromNearest(s.tasks, c, s.now, s.workers, last, 0, i);
    NearerAfter(|s.tasks|, last, i, Pick(s.tasks, c, s.now, s.workers, last).value);
  }

  /** Bounded waiting: a task that stays eligible for a core is chosen by it within as many
      selections as its distance and one more, hence within as many as there are task slots. */
  lemma {:induction false} BoundedWaiting(s: State, steps: seq<Step>, c: nat, i: nat)
    requires Runnable(s, steps) && c < |s.cores| && i < |s.tasks| && StaysEligible(s, steps, c, i)
    requires Selections(steps, c) > Distance(|s.tasks|, s.cores[c].last, i)
    ensures Dispatched(s, steps, c, i)
    decreases |steps|
  {
    if steps != [] && !Chooses(s, steps[0], c, i) {
      if steps[0] == Select(c) { SelectLast(s, c, i); } else { LastKept(s, steps[0], c); }
      BoundedWaiting(Apply(s, steps[0]), steps[1..], c, i);
    }
  }

  // ----- a whole turn of a task

  function Reached(s: State, steps: seq<Step>): State
    requires Runnable(s, steps)
    decreases |steps|
  {
    if steps == [] then s else Reached(Apply(s, steps[0]), steps[1..])
  }

  lemma ReachedStep(s: State, steps: seq<Step>)
    requires steps != [] && Enabled(s, steps[0]) && Runnable(Apply(s, steps[0]), steps[1..])
    ensures Runnable(s, steps) && Reached(s, steps) == Reached(Apply(s, steps[0]), steps[1..])
  {}

  lemma {:induction false} ReachedThen(s: State, a: seq<Step>, b: seq<Step>)
    requires Runnable(s, a) && Runnable(Reached(s, a), b)
    ensures Runnable(s, a + b) && Reached(s, a + b) == Reached(Reached(s, a), b)
    decreases |a|
  {
    if a == [] {
      assert a + b == b;
    } else {
      assert (a + b)[1..] == a[1..] + b;
      ReachedThen(Apply(s, a[0]), a[1..], b);
    }
  }

  function Enter(c: nat): seq<Step> { [Select(c), MarkOwned(c), Switch(c)] }

  function Leave(c: nat): seq<Step> { [SaveSwitch(c), Settle(c), Release(c)] }

  /** The task once a core has entered it. */
  function Running(k: Task, c: nat): Task {
    k.(running := true, onCpu := true, context := InUse, home := if k.context == Blank then c else k.home)
  }

  /** Chosen by a core, a task is marked and entered, and is what the core thinks is current. */
  lemma EnterMeans(s: State, c: nat, u: nat)
    requires Enabled(s, Select(c)) && Chooses(s, Select(c), c, u)
    ensures Runnable(s, Enter(c))
    ensures var k := s.cores[c];
            Reached(s, Enter(c)) ==
            s.(tasks := s.tasks[u := Running(s.tasks[u], c)],
               cores := s.cores[c := k.(phase := Executing, stack := k.stack + [u], current := Some(u),
                                        sched := Some(Frame(|k.stack|, u)), last := u)])
  {
    var s1 := Apply(s, Select(c));
    var s2 := Apply(s1, MarkOwned(c));
    var s3 := Apply(s2, Switch(c));
    ReachedStep(s2, [Switch(c)]);
    ReachedStep(s1, [MarkOwned(c), Switch(c)]);
    ReachedStep(s, Enter(c));
    assert s3.tasks == s.tasks[u := Running(s.tasks[u], c)];
    assert s3.cores == s.cores[c := s3.cores[c]];
  }

  /** Back in the scheduler that dispatched it, a task that gave up its core is saved and unmarked, and
      one that has finished no longer runs. */
  lemma LeaveMeans(s: State, c: nat)
    requires Enabled(s, SaveSwitch(c)) && s.cores[c].sched == Some(Frame(|s.cores[c].stack| - 1, Top(s.cores[c])))
    ensures Runnable(s, Leave(c))
    ensures var k, t := s.cores[c], Top(s.cores[c]);
            var back := k.(stack := k.stack[..|k.stack| - 1], sched := None);
            Reached(s, Leave(c)) ==
            s.(tasks := s.tasks[t := s.tasks[t].(onCpu := false, context := Saved,
                                                 running := s.tasks[t].running && !s.tasks[t].finished)],
               cores := s.cores[c := back.(phase := Resume(back))])
  {
    var t := Top(s.cores[c]);
    var s1 := Apply(s, SaveSwitch(c));
    var s2 := Apply(s1, Settle(c));
    var s3 := Apply(s2, Release(c));
    ReachedStep(s2, [Release(c)]);
    ReachedStep(s1, [Settle(c), Release(c)]);
    ReachedStep(s, Leave(c));
    assert s3.tasks == s.tasks[t := s3.tasks[t]];
    assert s3.cores == s.cores[c := s3.cores[c]];
  }

  /** What is left of a turn: the task differs in its context, its time and, after its first turn, its
      home; the core is where it was and goes on searching behind this task. */
  function Turned(s: State, c: nat, u: nat, wake: nat): State
    requires c < |s.cores| && u < |s.tasks|
  {
    var t, k := s.tasks[u], s.cores[c];
    Put(s, u, t.(running := false, onCpu := false, context := Saved, wake := wake,
                 home := if t.context == Blank then c else t.home), c,
        k.(phase := Resume(k), current := None, sched := None, last := u))
  }

  /** A task that a core chooses, enters and that yields is afterwards as it was, for every core. */
  lemma YieldTurn(s: State, c: nat, u: nat)
    requires Enabled(s, Select(c)) && Chooses(s, Select(c), c, u)
    ensures var steps := Enter(c) + ([Yield(c)] + Leave(c));
            Runnable(s, steps) && Reached(s, steps) == Turned(s, c, u, s.tasks[u].wake)
    ensures forall d: nat, now: nat, workers: bool ::
              Matches(Turned(s, c, u, s.tasks[u].wake).tasks[u], d, now, workers) <==>
              Matches(s.tasks[u], d, now, workers)
  {
    hide Runnable, Reached;
    EnterMeans(s, c, u);
    var s1 := Reached(s, Enter(c));
    var s2 := Apply(s1, Yield(c));
    LeaveMeans(s2, c);
    ReachedStep(s1, [Yield(c)] + Leave(c));
    assert ([Yield(c)] + Leave(c))[1..] == Leave(c);
    ReachedThen(s, Enter(c), [Yield(c)] + Leave(c));
    var s3 := Reached(s2, Leave(c));
    assert s3.cores[c].stack == s.cores[c].stack;
    assert s3.tasks == Turned(s, c, u, s.tasks[u].wake).tasks && s3.cores == Turned(s, c, u, s.tasks[u].wake).cores;
  }

  /** One that sleeps can then be chosen by the same cores, from the time it asked for. */
  lemma SleepTurn(s: State, c: nat, u: nat, until: nat)
    requires Enabled(s, Select(c)) && Chooses(s, Select(c), c, u)
    ensures var steps := Enter(c) + ([Sleep(c, until)] + Leave(c));
            Runnable(s, steps) && Reached(s, steps) == Turned(s, c, u, until)
    ensures forall d: nat, now: nat, workers: bool ::
              Matches(Turned(s, c, u, until).tasks[u], d, now, workers) <==>
              Wanted(s.tasks[u], d, workers) && until <= now
  {
    hide Runnable, Reached;
    EnterMeans(s, c, u);
    var s1 := Reached(s, Enter(c));
    var s2 := Apply(s1, Sleep(c, until));
    LeaveMeans(s2, c);
    ReachedStep(s1, [Sleep(c, until)] + Leave(c));
    assert ([Sleep(c, until)] + Leave(c))[1..] == Leave(c);
    ReachedThen(s, Enter(c), [Sleep(c, until)] + Leave(c));
    var s3 := Reached(s2, Leave(c));
    assert s3.cores[c].stack == s.cores[c].stack;
    assert s3.tasks == Turned(s, c, u, until).tasks && s3.cores == Turned(s, c, u, until).cores;
  }

  /** The steps of one core leave the other cores, the other tasks and the clock alone, except that a task
      that finishes clears what the core it began on thinks is current. */
  lemma StepIsLocal(s: State, step: Step, d: nat, t: nat)
    requires Enabled(s, step)
    ensures var s' := Apply(s, step);
            && s'.now == (if step.Tick? then step.now else s.now) && s'.workers == s.workers
            && |s'.tasks| == |s.tasks| && |s'.cores| == |s.cores|
            && (d < |s.cores| && CoreOf(step) != Some(d) ==>
                  s'.cores[d] == s.cores[d]
                  || (step.Finish? && s.tasks[Top(s.cores[step.core])].home == d
                      && s'.cores[d] == s.cores[d].(current := None)))
            && (t < |s.tasks| && !About(s, step, t) ==> s'.tasks[t] == s.tasks[t])
            && (t < |s.tasks| && !step.Spawn? ==> s'.tasks[t].target == s.tasks[t].target
                                                  && s'.tasks[t].live == s.tasks[t].live)
  {}

  /** The task that a step is about. */
  predicate About(s: State, step: Step, t: nat)
    requires Enabled(s, step)
  {
    match step
    case Tick(_) => false
    case Spawn(u, _) => t == u
    case Select(c) => Chooses(s, step, c, t)
    case Nest(_) => false
    case MarkOwned(c) => t == s.cores[c].phase.task
    case Switch(c) => t == s.cores[c].phase.task
    case Settle(c) => t == s.cores[c].phase.task
    case Release(c) => t == s.cores[c].phase.task
    case Yield(c) => t == Top(s.cores[c])
    case Sleep(c, _) => t == Top(s.cores[c])
    case SaveSwitch(c) => t == Top(s.cores[c])
    case Finish(c) => t == Top(s.cores[c])
    case ExitSwitch(c) => t == Top(s.cores[c])
  }

  // ----- runs that go wrong

  const FREE := Task(false, false, false, false, Blank, 0, ANY, 0)
  const IDLE := Core(Looking, [], None, None, 0)

  /** A task that has yielded on core 0, seen by core 1. */
  const YIELDED := State([Task(true, false, false, false, Saved, 0, ANY, 0)], [IDLE, IDLE], 0, false)

  /** The same task executing on core 0 before it yields. */
  const ENTERED := State([Task(true, true, true, false, InUse, 0, ANY, 0)],
                         [Core(Executing, [0], Some(0), Some(Frame(0, 0)), 0), IDLE], 0, false)

  const ONE := State([FREE], [IDLE, IDLE], 0, false)

  const TO_ENTERED := [Spawn(0, ANY), Select(0), MarkOwned(0), Switch(0)]
  const TO_TAKEN := [Select(1), MarkOwned(1), Switch(1)]
  const TO_STRAY := [Finish(1), ExitSwitch(1)]

  lemma EnteredIsReached()
    ensures Start(ONE) && Runnable(ONE, TO_ENTERED) && Reached(ONE, TO_ENTERED) == ENTERED
  {
    var s1 := Apply(ONE, Spawn(0, ANY));
    assert PickFrom(s1.tasks, 0, 0, false, 0, 0) == Some(0);
    var s2 := Apply(s1, Select(0));
    var s3 := Apply(s2, MarkOwned(0));
    var s4 := Apply(s3, Switch(0));
    assert s4.cores[0].stack == [0] && s4.tasks == ENTERED.tasks && s4.cores == ENTERED.cores;
    ReachedStep(s3, [Switch(0)]);
    ReachedStep(s2, [MarkOwned(0), Switch(0)]);
    ReachedStep(s1, [Select(0), MarkOwned(0), Switch(0)]);
    ReachedStep(ONE, TO_ENTERED);
  }

  lemma YieldedIsReached()
    ensures Runnable(ENTERED, TO_RELEASED) && Reached(ENTERED, TO_RELEASED) == YIELDED
  {
    var s1 := Apply(ENTERED, Yield(0));
    var s2 := Apply(s1, SaveSwitch(0));
    var s3 := Apply(s2, Settle(0));
    assert Apply(s3, Release(0)) == YIELDED;
    ReachedStep(s3, [Release(0)]);
    ReachedStep(s2, [Settle(0), Release(0)]);
    ReachedStep(s1, [SaveSwitch(0), Settle(0), Release(0)]);
    ReachedStep(ENTERED, [Yield(0), SaveSwitch(0), Settle(0), Release(0)]);
  }

  /** The task again, executing on core 1. */
  const TAKEN := State([Task(true, true, true, false, InUse, 0, ANY, 0)],
                       [IDLE, Core(Executing, [0], Some(0), Some(Frame(0, 0)), 0)], 0, false)

  lemma TakenIsReached()
    ensures Runnable(YIELDED, TO_TAKEN) && Reached(YIELDED, TO_TAKEN) == TAKEN
  {
    assert PickFrom(YIELDED.tasks, 1, 0, false, 0, 0) == Some(0);
    var s1 := Apply(YIELDED, Select(1));
    var s2 := Apply(s1, MarkOwned(1));
    var s3 := Apply(s2, Switch(1));
    assert s3.cores[1].stack == [0] && s3.tasks == TAKEN.tasks && s3.cores == TAKEN.cores;
    ReachedStep(s2, [Switch(1)]);
    ReachedStep(s1, [MarkOwned(1), Switch(1)]);
    ReachedStep(YIELDED, TO_TAKEN);
  }

  lemma TakenToLost()
    ensures Runnable(TAKEN, TO_STRAY) && InPhase(Reached(TAKEN, TO_STRAY), 1, Lost)
  {
    var s1 := Apply(TAKEN, Finish(1));
    assert Apply(s1, ExitSwitch(1)).cores[1].phase == Lost;
    ReachedStep(s1, [ExitSwitch(1)]);
    ReachedStep(TAKEN, TO_STRAY);
  }

  /** Core 0 executing task 0, with task 1 ready. */
  const BUSY := State([Task(true, true, true, false, InUse, 0, ANY, 0),
      Task(true, false, false, false, Blank, 0, ANY, 0)],
                      [Core(Executing, [0], Some(0), Some(Frame(0, 0)), 0), IDLE], 0, false)

  /** In between, task 1 executes on top of task 0, and its scheduler context has replaced the one
      of the core's main loop. */
  const INNER := State([Task(true, true, true, false, InUse, 0, ANY, 0),
      Task(true, true, true, false, InUse, 0, ANY, 0)],
                       [Core(Executing, [0, 1], Some(1), Some(Frame(1, 1)), 1), IDLE], 0, false)

  /** The same core once task 1, dispatched from inside a yield of task 0, has yielded back: the
      scheduler context is used up. */
  const SPENT := State([Task(true, true, true, false, InUse, 0, ANY, 0),
      Task(true, false, false, false, Saved, 0, ANY, 0)],
                       [Core(Executing, [0], None, None, 1), IDLE], 0, false)

  const TWO := State([FREE, FREE], [IDLE, IDLE], 0, false)

  const TO_BUSY := [Spawn(0, ANY), Select(0), MarkOwned(0), Switch(0), Spawn(1, ANY)]
  const TO_INNER := [Nest(0), Select(0), MarkOwned(0), Switch(0)]
  const TO_RELEASED := [Yield(0), SaveSwitch(0), Settle(0), Release(0)]
  const TO_LOST := [Finish(0), ExitSwitch(0)]

  lemma BusyIsReached()
    ensures Start(TWO) && Runnable(TWO, TO_BUSY) && Reached(TWO, TO_BUSY) == BUSY
  {
    var s1 := Apply(TWO, Spawn(0, ANY));
    assert PickFrom(s1.tasks, 0, 0, false, 1, 0) == PickFrom(s1.tasks, 0, 0, false, 1, 1) == Some(0);
    var s2 := Apply(s1, Select(0));
    var s3 := Apply(s2, MarkOwned(0));
    var s4 := Apply(s3, Switch(0));
    var s5 := Apply(s4, Spawn(1, ANY));
    assert s5.cores[0].stack == [0] && s5.tasks == BUSY.tasks && s5.cores == BUSY.cores;
    ReachedStep(s4, [Spawn(1, ANY)]);
    ReachedStep(s3, [Switch(0), Spawn(1, ANY)]);
    ReachedStep(s2, [MarkOwned(0), Switch(0), Spawn(1, ANY)]);
    ReachedStep(s1, [Select(0), MarkOwned(0), Switch(0), Spawn(1, ANY)]);
    ReachedStep(TWO, TO_BUSY);
  }

  lemma NestedDispatch()
    ensures Runnable(BUSY, TO_INNER)
    ensures Reached(BUSY, TO_INNER) == INNER
  {
    var s1 := Apply(BUSY, Nest(0));
    assert PickFrom(BUSY.tasks, 0, 0, false, 1, 0) == Some(1);
    var s2 := Apply(s1, Select(0));
    var s3 := Apply(s2, MarkOwned(0));
    var s4 := Apply(s3, Switch(0));
    assert s4.cores[0].stack == [0, 1] && s4.tasks == INNER.tasks && s4.cores == INNER.cores;
    ReachedStep(s3, [Switch(0)]);
    ReachedStep(s2, [MarkOwned(0), Switch(0)]);
    ReachedStep(s1, [Select(0), MarkOwned(0), Switch(0)]);
    ReachedStep(BUSY, [Nest(0), Select(0), MarkOwned(0), Switch(0)]);
  }

  lemma NestedReturn()
    ensures Runnable(INNER, TO_RELEASED)
    ensures Reached(INNER, TO_RELEASED) == SPENT
  {
    var s1 := Apply(INNER, Yield(0));
    var s2 := Apply(s1, SaveSwitch(0));
    var s3 := Apply(s2, Settle(0));
    var s4 := Apply(s3, Release(0));
    assert s4.cores[0].stack == [0] && s4.tasks == SPENT.tasks && s4.cores == SPENT.cores;
    ReachedStep(s3, [Release(0)]);
    ReachedStep(s2, [Settle(0), Release(0)]);
    ReachedStep(s1, [SaveSwitch(0), Settle(0), Release(0)]);
    ReachedStep(INNER, [Yield(0), SaveSwitch(0), Settle(0), Release(0)]);
  }

  lemma SpentToLost()
    ensures Runnable(SPENT, TO_LOST) && InPhase(Reached(SPENT, TO_LOST), 0, Lost)
  {
    var s1 := Apply(SPENT, Finish(0));
    assert Apply(s1, ExitSwitch(0)).cores[0].phase == Lost;
    ReachedStep(s1, [ExitSwitch(0)]);
    ReachedStep(SPENT, TO_LOST);
  }

  /** From the start: a task that yields while the lock is taken dispatches another on top of itself;
      when it then finishes, the core jumps to a context that was already resumed. */
  lemma SpentContextGoesAstray()
    ensures var steps := TO_BUSY + TO_INNER + TO_RELEASED + TO_LOST;
            Start(TWO) && Runnable(TWO, steps) && InPhase(Reached(TWO, steps), 0, Lost)
  {
    hide Runnable, Reached;
    BusyIsReached();
    NestedDispatch();
    NestedReturn();
    SpentToLost();
    ReachedThen(TWO, TO_BUSY, TO_INNER);
    ReachedThen(TWO, TO_BUSY + TO_INNER, TO_RELEASED);
    ReachedThen(TWO, TO_BUSY + TO_INNER + TO_RELEASED, TO_LOST);
  }

  /** From the start: a task that yields on one core and is taken up by another finishes there, and
      that core jumps to the first core's scheduler context. */
  lemma MigratedTaskGoesAstray()
    ensures var steps := TO_ENTERED + TO_RELEASED + TO_TAKEN + TO_STRAY;
            Start(ONE) && Runnable(ONE, steps) && InPhase(Reached(ONE, steps), 1, Lost)
  {
    hide Runnable, Reached;
    EnteredIsReached();
    YieldedIsReached();
    TakenIsReached();
    TakenToLost();
    ReachedThen(ONE, TO_ENTERED, TO_RELEASED);
    ReachedThen(ONE, TO_ENTERED + TO_RELEASED, TO_TAKEN);
    ReachedThen(ONE, TO_ENTERED + TO_RELEASED + TO_TAKEN, TO_STRAY);
  }

  // ----- a slot taken too early

  /** The slot's first task is gone but for its mark; a second one has it and core 1 has marked it. */
  const RETAKEN := State([Task(true, true, true, false, Saved, 1, ANY, 0)],
                         [Core(Settled(0), [], None, None, 0), Core(Owned(0), [], Some(0), None, 0)], 0, false)

  /** Core 0 is about to enter the task whose context core 1 is still to save. */
  const TWICE := State([Task(true, true, true, false, InUse, 1, ANY, 0)],
                       [Core(Owned(0), [], Some(0), None, 0), Core(Saving, [0], None, Some(Frame(0, 0)), 0)], 0, false)

  /** The task has finished, and its mark is all that is left to clear. */
  const SETTLED := State([Task(true, false, true, true, Saved, 0, ANY, 0)], [Core(Settled(0), [], None, None, 0), IDLE],
                         0, false)

  const TO_SETTLED := [Finish(0), ExitSwitch(0), Settle(0)]
  const TO_RETAKEN := [Spawn(0, ANY), Select(1), MarkOwned(1)]
  const TO_TWICE := [Release(0), Switch(1), Yield(1), Select(0), MarkOwned(0)]

  lemma SettledIsReached()
    ensures Runnable(ENTERED, TO_SETTLED) && Reached(ENTERED, TO_SETTLED) == SETTLED
  {
    var s1 := Apply(ENTERED, Finish(0));
    var s2 := Apply(s1, ExitSwitch(0));
    assert Apply(s2, Settle(0)) == SETTLED;
    ReachedStep(s2, [Settle(0)]);
    ReachedStep(s1, [ExitSwitch(0), Settle(0)]);
    ReachedStep(ENTERED, TO_SETTLED);
  }

  lemma RetakenIsReached()
    ensures Runnable(SETTLED, TO_RETAKEN) && Reached(SETTLED, TO_RETAKEN) == RETAKEN
  {
    var s1 := Apply(SETTLED, Spawn(0, ANY));
    assert PickFrom(s1.tasks, 1, 0, false, 0, 0) == Some(0);
    var s2 := Apply(s1, Select(1));
    assert Apply(s2, MarkOwned(1)) == RETAKEN;
    ReachedStep(s2, [MarkOwned(1)]);
    ReachedStep(s1, [Select(1), MarkOwned(1)]);
    ReachedStep(SETTLED, TO_RETAKEN);
  }

  lemma TwiceIsReached()
    ensures Runnable(RETAKEN, TO_TWICE) && Reached(RETAKEN, TO_TWICE) == TWICE
  {
    var s1 := Apply(RETAKEN, Release(0));
    var s2 := Apply(s1, Switch(1));
    var s3 := Apply(s2, Yield(1));
    assert PickFrom(s3.tasks, 0, 0, false, 0, 0) == Some(0);
    var s4 := Apply(s3, Select(0));
    var s5 := Apply(s4, MarkOwned(0));
    assert s5.cores[1].stack == [0] && s5.tasks == TWICE.tasks && s5.cores == TWICE.cores;
    ReachedStep(s4, [MarkOwned(0)]);
    ReachedStep(s3, [Select(0), MarkOwned(0)]);
    ReachedStep(s2, [Yield(1), Select(0), MarkOwned(0)]);
    ReachedStep(s1, [Switch(1), Yield(1), Select(0), MarkOwned(0)]);
    ReachedStep(RETAKEN, TO_TWICE);
  }

  /** From the start: a slot is taken while the core that ran its last task is still to clear the mark.
      The mark that is then cleared is the new task's, so it is picked a second time when it yields: two
      cores hold it, and one is about to restore a context that the other has not saved. */
  lemma ReusedSlotOnTwoCores()
    ensures var steps := TO_ENTERED + TO_SETTLED + TO_RETAKEN + TO_TWICE;
            && Start(ONE) && Runnable(ONE, steps)
            && var s := Reached(ONE, steps);
            Holds(s, 0, 0) && Holds(s, 1, 0) && Enabled(s, Switch(0)) && s.tasks[0].context == InUse
  {
    hide Runnable, Reached;
    EnteredIsReached();
    SettledIsReached();
    RetakenIsReached();
    TwiceIsReached();
    ReachedThen(ONE, TO_ENTERED, TO_SETTLED);
    ReachedThen(ONE, TO_ENTERED + TO_SETTLED, TO_RETAKEN);
    ReachedThen(ONE, TO_ENTERED + TO_SETTLED + TO_RETAKEN, TO_TWICE);
  }

  // ----- the locked sections, in place

  /** The shared tables. Each method is one critical section or one store of the kernel's code. */
  class Kernel {
    const tasks: array<Task>
    const cores: array<Core>
    var now: nat
    var workers: bool

    ghost function Now(): State
      reads this, tasks, cores
    {
      State(tasks[..], cores[..], now, workers)
    }

    constructor (tasks: array<Task>, cores: array<Core>)
      ensures this.tasks == tasks && this.cores == cores
    {
      this.tasks, this.cores := tasks, cores;
      now, workers := 0, false;
    }

    /** Searches the slots cyclically from the one after the last chosen, and claims the first match. */
    method SelectTask(c: nat) returns (found: bool)
      requires Enabled(Now(), Select(c)) && tasks.Length > 0
      modifies tasks, cores
      ensures Now() == Apply(old(Now()), Select(c))
      ensures found <==> exists i :: 0 <= i < tasks.Length && Matches(old(tasks[i]), c, now, workers)
      ensures old(Inv(Now())) ==> Inv(Now())
    {
      if Inv(Now()) { SelectKeeps(Now(), c); }
      PickFindsIff(tasks[..], c, now, workers, cores[c].last);
      var n := tasks.Length;
      var start := (cores[c].last + 1) % n;
      var offset := 0;
      ghost var s := tasks[..];
      while offset < n
        invariant 0 <= offset <= n && tasks[..] == s && cores[..] == old(cores[..])
        invariant PickFrom(s, c, now, workers, start, 0) == PickFrom(s, c, now, workers, start, offset)
      {
        var i := (start + offset) % n;
        if Matches(tasks[i], c, now, workers) {
          tasks[i] := tasks[i].(running := true);
          cores[c] := cores[c].(phase := Claimed(i), current := Some(i), last := i);
          return true;
        }
        offset := offset + 1;
      }
      cores[c] := cores[c].(phase := Resume(cores[c]));
      found := false;
    }

    method YieldTask(c: nat)
      requires Enabled(Now(), Yield(c))
      modifies tasks, cores
      ensures Now() == Apply(old(Now()), Yield(c))
      ensures old(Inv(Now())) ==> Inv(Now()) && Holds(Now(), c, old(Top(cores[c])))
      ensures old(Inv(Now())) ==>
                var k, before := Now().tasks[old(Top(cores[c]))], old(tasks[Top(cores[c])]);
                && (forall d: nat, at: nat, w: bool :: !Matches(k, d, at, w))
                && forall d: nat, at: nat, w: bool ::
                     Matches(k.(onCpu := false), d, at, w) <==> Wanted(before, d, w) && before.wake <= at
    {
      if Inv(Now()) { YieldMeans(Now(), c); }
      var t := Top(cores[c]);
      tasks[t] := tasks[t].(running := false);
      cores[c] := cores[c].(phase := Saving, current := None);
    }

    method SleepTask(c: nat, micros: nat)
      requires Enabled(Now(), Sleep(c, now + micros))
      modifies tasks, cores
      ensures Now() == Apply(old(Now()), Sleep(c, now + micros))
      ensures old(Inv(Now())) ==> Inv(Now()) && Holds(Now(), c, old(Top(cores[c])))
      ensures old(Inv(Now())) ==>
                var k, before := Now().tasks[old(Top(cores[c]))], old(tasks[Top(cores[c])]);
                && (forall d: nat, at: nat, w: bool :: !Matches(k, d, at, w))
                && forall d: nat, at: nat, w: bool ::
                     Matches(k.(onCpu := false), d, at, w) <==> Wanted(before, d, w) && now + micros <= at
    {
      if Inv(Now()) { SleepMeans(Now(), c, now + micros); }
      var t := Top(cores[c]);
      tasks[t] := tasks[t].(running := false, wake := now + micros);
      cores[c] := cores[c].(phase := Saving, current := None);
    }

    /** Takes the first slot that is empty or whose task has finished and stopped running; that this is
        safe only for a slot without a mark is not looked at. */
    method CreateTask(target: int) returns (found: bool, t: nat)
      modifies tasks
      ensures found <==> exists i: nat :: Enabled(old(Now()), Spawn(i, target))
      ensures found ==>
                && Enabled(old(Now()), Spawn(t, target)) && Now() == Apply(old(Now()), Spawn(t, target))
                && (forall i: nat :: i < t ==> !Enabled(old(Now()), Spawn(i, target)))
                && (old(Inv(Now())) ==> (Inv(Now()) <==> !old(tasks[t].onCpu)))
                && (forall d: nat, at: nat, w: bool ::
                      Matches(tasks[t], d, at, w) <==> d == target || (target == ANY && !(w && d == SERVICE)))
      ensures !found ==> Now() == old(Now())
    {
      t := 0;
      while t < tasks.Length
        invariant t <= tasks.Length && tasks[..] == old(tasks[..])
        invariant forall i: nat :: i < t ==> !Enabled(old(Now()), Spawn(i, target))
      {
        if !tasks[t].live || (tasks[t].finished && !tasks[t].running) {
          assert Enabled(old(Now()), Spawn(t, target));
          if Inv(Now()) { SpawnKeepsIff(Now(), t, target); }
          SpawnMeans(Now(), t, target);
          tasks[t] := Task(true, false, false, false, Blank, 0, target, 0);
          return true, t;
        }
        t := t + 1;
      }
      found := false;
    }

    /** Gives a task that never ran its context, and marks it on_cpu before the switch. */
    method MarkTask(c: nat)
      requires Enabled(Now(), MarkOwned(c))
      modifies tasks, cores
      ensures Now() == Apply(old(Now()), MarkOwned(c))
      ensures old(Inv(Now())) ==> Inv(Now()) && Now().tasks[old(cores[c].phase.task)].context == Saved
    {
      if Inv(Now()) {
        MarkKeeps(Now(), c);
        SwitchRestoresSaved(Apply(Now(), MarkOwned(c)), c);
      }
      var u := cores[c].phase.task;
      if tasks[u].context == Blank { tasks[u] := tasks[u].(context := Saved, home := c); }
      tasks[u] := tasks[u].(onCpu := true);
      cores[c] := cores[c].(phase := Owned(u));
    }

    /** The end of a task's entry routine, which clears the current task of the core it began on. */
    method FinishTask(c: nat)
      requires Enabled(Now(), Finish(c))
      modifies tasks, cores
      ensures Now() == Apply(old(Now()), Finish(c))
      ensures old(Inv(Now())) ==> Inv(Now()) && Holds(Now(), c, old(Top(cores[c])))
      ensures old(Inv(Now())) ==>
                var k := Now().tasks[old(Top(cores[c]))];
                forall d: nat, at: nat, w: bool, r: bool, o: bool :: !Matches(k.(running := r, onCpu := o), d, at, w)
    {
      if Inv(Now()) { FinishMeans(Now(), c); }
      var t := Top(cores[c]);
      var home := tasks[t].home;
      tasks[t] := tasks[t].(finished := true);
      cores[c] := cores[c].(phase := Exiting);
      cores[home] := cores[home].(current := None);
    }

    /** Back in the scheduler: a finished task stops running, then the mark is cleared. */
    method ReleaseTask(c: nat)
      requires Enabled(Now(), Settle(c))
      modifies tasks, cores
      ensures Enabled(Apply(old(Now()), Settle(c)), Release(c))
      ensures Now() == Apply(Apply(old(Now()), Settle(c)), Release(c))
      ensures old(Inv(Now())) ==>
                var u, s := old(cores[c].phase.task), Now();
                && Inv(s) && s.tasks[u].context == Saved && (forall d: nat :: !Holds(s, d, u))
                && forall d: nat, at: nat, w: bool ::
                     Matches(s.tasks[u], d, at, w) <==> Wanted(s.tasks[u], d, w) && s.tasks[u].wake <= at
    {
      if Inv(Now()) { ReleaseMeans(Now(), c); }
      var u := cores[c].phase.task;
      if tasks[u].finished && tasks[u].running { tasks[u] := tasks[u].(running := false); }
      cores[c] := cores[c].(phase := Settled(u));
      tasks[u] := tasks[u].(onCpu := false);
      cores[c] := cores[c].(phase := Resume(cores[c]));
    }
  }
}
