/**
 Processes sharing one `state.json`.

 Every step below runs under the state file's lock: it reads the file, changes the
 state and writes it back.  Starting an activation takes two such steps, `Activate`
 and `MarkReady`, with the lock released while the hooks run in between, so any other
 step may come between them.  Processes may die, and pids may be reused, at any time.
 */
module ActivationProtocol {
  import opened Options
  import opened Activation

  datatype System = System(
    disk: Option<State>,                  // contents of state.json, if the file exists
    live: set<Pid>,                       // running processes
    hooks: map<Pid, StartIdentifier>,     // processes between their start and their set_ready
    dirs: set<StartIdentifier>,           // starts whose state directory exists
    completed: set<StartIdentifier>)      // those of them whose hooks ran to the end

  datatype Event =
    | Spawn(pid: Pid)
    | Die(pid: Pid)
    | Activate(pid: Pid, storePath: Path, now: Time, container: bool, newExecutive: Pid)
    | HooksFail(pid: Pid)
    | MarkReady(pid: Pid)
    | DetachCommand(pid: Pid)
    | AttachCommand(startId: StartIdentifier, oldPid: Pid, newPid: Pid, expiration: Option<Time>)
    | WatcherCleanup(pid: Pid, now: Time)
    | DiscardEmpty

  const INITIAL := System(None, {}, map[], {}, {})

  // ---------------------------------------------------------------------------
  // Steps
  // ---------------------------------------------------------------------------

  predicate ExecutiveRunning(st: State, live: set<Pid>) {
    st.executivePid != EXECUTIVE_NOT_STARTED && st.executivePid in live
  }

  /** The state an activation works on: without a running executive it starts over. */
  function Baseline(s: System): State {
    if s.disk.Some? && ExecutiveRunning(s.disk.value, s.live) then s.disk.value else FRESH_STATE
  }

  function ActivateOutcome(s: System, pid: Pid, storePath: Path, now: Time): StartOrAttachResult {
    StartOrAttach(Baseline(s), pid, storePath, now, s.live).1
  }

  predicate Enabled(s: System, e: Event) {
    match e
    case Spawn(p) => p > 0 && p !in s.live
    case Die(p) => p in s.live
    case Activate(p, _, _, _, x) => p in s.live && p !in s.hooks && x > 0 && x !in s.live
    case HooksFail(p) => p in s.hooks
    case MarkReady(p) => p in s.hooks
    case DetachCommand(p) => s.disk.Some? && p in s.disk.value.attached
    case AttachCommand(id, oldPid, _, _) => s.disk.Some? && CanReplace(s.disk.value, id, oldPid)
    case WatcherCleanup(_, _) => s.disk.Some?
    case DiscardEmpty => s.disk.Some? && s.disk.value.attached == map[]
  }

  /** The directory of a start handed back for removal is gone once the step is over. */
  function Retire(s: System, id: Option<StartIdentifier>): System {
    if id.None? then s else s.(dirs := s.dirs - {id.value}, completed := s.completed - {id.value})
  }

  /** The executive removes the whole activation directory, start directories included. */
  function Discard(s: System): System {
    s.(disk := None, dirs := {}, completed := {})
  }

  function AfterActivate(s: System, e: Event): System
    requires e.Activate?
  {
    var (st, r) := StartOrAttach(Baseline(s), e.pid, e.storePath, e.now, s.live);
    match r
    case AlreadyStarting(_, _) => s
    case Attach(_) => s.(disk := Some(st))
    case Start(id) =>
      var begun := s.(hooks := s.hooks[e.pid := id], dirs := s.dirs + {id});
      if e.container then
        begun.(disk := Some(st.(executivePid := e.pid)))
      else if st.executivePid == EXECUTIVE_NOT_STARTED then
        begun.(disk := Some(st.(executivePid := e.newExecutive)), live := s.live + {e.newExecutive})
      else
        begun.(disk := Some(st))
  }

  function AfterWatcherCleanup(s: System, e: Event): System
    requires e.WatcherCleanup? && s.disk.Some?
  {
    var (st, emptied) := CleanupPid(s.disk.value, e.pid, s.live, e.now);
    if st.attached == map[] then Discard(s) else Retire(s.(disk := Some(st)), emptied)
  }

  function Next(s: System, e: Event): System
    requires Enabled(s, e)
  {
    match e
    case Spawn(p) => s.(live := s.live + {p})
    case Die(p) => s.(live := s.live - {p}, hooks := s.hooks - {p})
    case Activate(_, _, _, _, _) => AfterActivate(s, e)
    case HooksFail(p) => s.(hooks := s.hooks - {p})
    case MarkReady(p) =>
      var finished := s.(hooks := s.hooks - {p}, completed := s.completed + {s.hooks[p]});
      if s.disk.None? then finished  // "state.json should exist": the process panics
      else finished.(disk := Some(s.disk.value.(ready := IsReady(s.hooks[p]))))
    case DetachCommand(p) =>
      var (st, emptied) := Detach(s.disk.value, p);
      Retire(s.(disk := Some(st)), emptied)
    case AttachCommand(id, oldPid, newPid, expiration) =>
      s.(disk := Some(Replace(s.disk.value, id, oldPid, newPid, expiration)))
    case WatcherCleanup(_, _) => AfterWatcherCleanup(s, e)
    case DiscardEmpty => Discard(s)
  }

  // ---------------------------------------------------------------------------
  // What the environment must respect
  // ---------------------------------------------------------------------------

  /** An activation would attach to the ready start of a state nobody is attached to any more. */
  predicate AttachesToEmptied(s: System, storePath: Path) {
    && s.disk.Some? && ExecutiveRunning(s.disk.value, s.live)
    && s.disk.value.attached == map[]
    && s.disk.value.ready.IsReady? && s.disk.value.ready.startId.storePath == storePath
  }

  /**
   The conditions on who may do what.  Each can be checked before the step is taken:
   an activation finds the executive alive while somebody's hooks run, and does not
   find the ready start in an emptied state; nobody else detaches or re-attaches a
   process whose hooks are running; a replacement does not drop the ready start's
   only holder.
   */
  predicate Disciplined(s: System, e: Event)
    requires Enabled(s, e)
  {
    match e
    case Activate(_, storePath, _, _, _) =>
      && (s.hooks != map[] ==> s.disk.Some? && ExecutiveRunning(s.disk.value, s.live))
      && !AttachesToEmptied(s, storePath)
    case DetachCommand(p) => p !in s.hooks
    case AttachCommand(id, oldPid, newPid, _) =>
      && (oldPid in s.hooks ==> newPid == oldPid)
      && (newPid in s.hooks ==> s.hooks[newPid] == id)
      && !DropsReadyHolder(s.disk.value, id, oldPid, newPid)
    case _ => true
  }

  // ---------------------------------------------------------------------------
  // The invariant
  // ---------------------------------------------------------------------------

  /** `p` is the process starting the activation on disk, and is attached to its own start. */
  predicate StarterRecorded(st: State, p: Pid, id: StartIdentifier) {
    st.ready == Starting(p, id) && p in st.attached && st.attached[p].startId == id
  }

  ghost predicate StateInv(s: System, st: State) {
    && st.executivePid != EXECUTIVE_NOT_STARTED
    && (forall p :: p in st.attached ==> st.attached[p].startId in s.dirs)
    && ReadyIsBacked(st)
    && (st.ready.IsReady? && st.attached != map[] ==> st.ready.startId in s.completed)
    && (st.ready.IsReady? && st.attached == map[] ==> st.ready.startId !in s.dirs)
  }

  ghost predicate Inv(s: System) {
    && (forall p :: p in s.live ==> p > 0)
    && (forall p :: p in s.hooks ==>
          p in s.live && s.disk.Some? && StarterRecorded(s.disk.value, p, s.hooks[p]))
    && s.completed <= s.dirs
    && (s.disk.Some? ==> StateInv(s, s.disk.value))
  }

  // ---------------------------------------------------------------------------
  // One step
  // ---------------------------------------------------------------------------

  lemma OneStarter(s: System, p: Pid, q: Pid)
    requires Inv(s) && p in s.hooks && q in s.hooks
    ensures p == q
  {
  }

  lemma BaselineInv(s: System)
    requires Inv(s)
    ensures var st := Baseline(s);
            && (forall p :: p in st.attached ==> st.attached[p].startId in s.dirs)
            && ReadyIsBacked(st)
            && (st.ready.IsReady? && st.attached != map[] ==> st.ready.startId in s.completed)
  {
  }

  lemma ActivateStepIff(s: System, e: Event)
    requires Inv(s) && Enabled(s, e) && e.Activate?
    ensures Inv(Next(s, e)) <==> Disciplined(s, e)
  {
    var base := Baseline(s);
    var (st, r) := StartOrAttach(base, e.pid, e.storePath, e.now, s.live);
    var s' := Next(s, e);
    BaselineInv(s);
    StartOrAttachKeepsReadyBacked(base, e.pid, e.storePath, e.now, s.live);
    if s.hooks != map[] {
      var p := Pick(s.hooks.Keys);
      if s.disk.Some? && ExecutiveRunning(s.disk.value, s.live) {
        assert r.AlreadyStarting? && s' == s;
      } else {
        assert base == FRESH_STATE && r.Start?;
        assert p in s'.hooks && !StarterRecorded(s'.disk.value, p, s'.hooks[p]);
      }
    } else if AttachesToEmptied(s, e.storePath) {
      assert e.pid in s'.disk.value.attached;
      assert s'.disk.value.attached[e.pid].startId !in s'.dirs;
    } else if r.Attach? {
      assert base.attached != map[];
      assert forall p :: p in s'.disk.value.attached ==> p == e.pid || p in base.attached;
    } else if r.Start? {
      assert forall p :: p in s'.disk.value.attached ==> p == e.pid || p in base.attached;
      assert e.pid in s'.disk.value.attached;
    }
  }

  lemma RetireKeepsRest(s: System, pid: Pid)
    requires Inv(s) && s.disk.Some? && pid in s.disk.value.attached
    ensures var (st, emptied) := Detach(s.disk.value, pid);
            StateInv(Retire(s.(disk := Some(st)), emptied), st)
  {
    var before := s.disk.value;
    var (st, emptied) := Detach(before, pid);
    var s' := Retire(s.(disk := Some(st)), emptied);
    forall p | p in st.attached ensures st.attached[p].startId in s'.dirs {
      assert p in before.attached;
    }
    if st.ready.IsReady? && st.attached == map[] {
      assert forall p :: p in before.attached ==> p == pid by {
        assert forall p :: p in before.attached && p != pid ==> p in st.attached;
      }
      assert before.ready == st.ready && Referenced(before.attached, st.ready.startId);
      assert !Referenced(st.attached, before.attached[pid].startId);
      assert emptied == Some(st.ready.startId);
    }
  }

  lemma DetachStepIff(s: System, e: Event)
    requires Inv(s) && Enabled(s, e) && e.DetachCommand?
    ensures Inv(Next(s, e)) <==> Disciplined(s, e)
  {
    RetireKeepsRest(s, e.pid);
    var s' := Next(s, e);
    if e.pid in s.hooks {
      assert e.pid in s'.hooks && e.pid !in s'.disk.value.attached;
    } else {
      forall p | p in s'.hooks ensures StarterRecorded(s'.disk.value, p, s'.hooks[p]) {
        assert p in s.hooks && p != e.pid;
      }
    }
  }

  lemma WatcherStepKeepsInv(s: System, e: Event)
    requires Inv(s) && Enabled(s, e) && e.WatcherCleanup?
    ensures Inv(Next(s, e))
  {
    var before := s.disk.value;
    var (st, emptied) := CleanupPid(before, e.pid, s.live, e.now);
    if e.pid in before.attached && e.pid !in st.attached {
      RetireKeepsRest(s, e.pid);
    }
    assert forall p :: p in s.hooks ==> p in st.attached;
  }

  lemma AttachStepIff(s: System, e: Event)
    requires Inv(s) && Enabled(s, e) && e.AttachCommand?
    ensures Inv(Next(s, e)) <==> Disciplined(s, e)
  {
    var before := s.disk.value;
    ReplaceKeepsReadyBackedIff(before, e.startId, e.oldPid, e.newPid, e.expiration);
    var s' := Next(s, e);
    var st := s'.disk.value;
    assert before.attached != map[] by { assert e.oldPid in before.attached; }
    assert e.newPid in st.attached;
    forall p | p in st.attached ensures st.attached[p].startId in s'.dirs {
      if p == e.newPid { assert e.oldPid in before.attached; } else { assert p in before.attached; }
    }
    if e.oldPid in s.hooks && e.newPid != e.oldPid {
      assert e.oldPid in s'.hooks && e.oldPid !in st.attached;
    } else if e.newPid in s.hooks && s.hooks[e.newPid] != e.startId {
      assert e.newPid in s'.hooks && st.attached[e.newPid].startId != s'.hooks[e.newPid];
    } else {
      assert forall p :: p in s'.hooks ==> StarterRecorded(st, p, s'.hooks[p]);
    }
  }

  lemma MarkReadyKeepsInv(s: System, e: Event)
    requires Inv(s) && Enabled(s, e) && e.MarkReady?
    ensures Inv(Next(s, e)) && s.disk.Some?
  {
    var s' := Next(s, e);
    assert forall p :: p in s'.hooks ==> p in s.hooks;
    forall p | p in s'.hooks ensures false {
      OneStarter(s, p, e.pid);
    }
    assert e.pid in s'.disk.value.attached && s'.disk.value.attached[e.pid].startId == s.hooks[e.pid];
  }

  /**
   The discipline is exact: from any state satisfying the invariant, a step keeps the
   invariant if and only if it respects the discipline.
   */
  lemma StepKeepsInvIff(s: System, e: Event)
    requires Inv(s) && Enabled(s, e)
    ensures Inv(Next(s, e)) <==> Disciplined(s, e)
  {
    match e
    case Spawn(_) => assert Inv(Next(s, e));
    case Die(p) => assert Inv(Next(s, e));
    case Activate(_, _, _, _, _) => ActivateStepIff(s, e);
    case HooksFail(_) => assert Inv(Next(s, e));
    case MarkReady(_) => MarkReadyKeepsInv(s, e);
    case DetachCommand(_) => DetachStepIff(s, e);
    case AttachCommand(_, _, _, _) => AttachStepIff(s, e);
    case WatcherCleanup(_, _) => WatcherStepKeepsInv(s, e);
    case DiscardEmpty => assert forall p :: p !in s.hooks;
  }

  // ---------------------------------------------------------------------------
  // Whole runs
  // ---------------------------------------------------------------------------

  /** `es` can be taken, one after the other, from `s`. */
  predicate Possible(s: System, es: seq<Event>)
    decreases |es|
  {
    es == [] || (Enabled(s, es[0]) && Possible(Next(s, es[0]), es[1..]))
  }

  function After(s: System, es: seq<Event>): System
    requires Possible(s, es)
    decreases |es|
  {
    if es == [] then s else After(Next(s, es[0]), es[1..])
  }

  /** Every step of the run respects the discipline. */
  predicate DisciplinedRun(s: System, es: seq<Event>)
    requires Possible(s, es)
    decreases |es|
  {
    es == [] || (Disciplined(s, es[0]) && DisciplinedRun(Next(s, es[0]), es[1..]))
  }

  ghost predicate Reachable(s: System) {
    exists es :: Possible(INITIAL, es) && DisciplinedRun(INITIAL, es) && After(INITIAL, es) == s
  }

  lemma {:induction false} RunKeepsInv(s: System, es: seq<Event>)
    requires Inv(s) && Possible(s, es) && DisciplinedRun(s, es)
    ensures Inv(After(s, es))
    decreases |es|
  {
    if es != [] {
      StepKeepsInvIff(s, es[0]);
      RunKeepsInv(Next(s, es[0]), es[1..]);
    }
  }

  lemma ReachableInv(s: System)
    requires Reachable(s)
    ensures Inv(s)
  {
    var es :| Possible(INITIAL, es) && DisciplinedRun(INITIAL, es) && After(INITIAL, es) == s;
    RunKeepsInv(INITIAL, es);
  }

  // ---------------------------------------------------------------------------
  // Main results
  // ---------------------------------------------------------------------------

  /**
   Starter mutual exclusion.  At most one live process is between its start and its
   `set_ready`; the file names it and its start, and it is attached to that start.
   Any other activation is told to wait, and changes nothing, exactly while the
   executive runs.
   */
  lemma StarterMutualExclusion(s: System, p: Pid, q: Pid, storePath: Path, now: Time)
    requires Reachable(s) && p in s.hooks
    ensures s.hooks.Keys == {p} && p in s.live
    ensures s.disk.Some? && StarterRecorded(s.disk.value, p, s.hooks[p]) && s.hooks[p] in s.dirs
    ensures ActivateOutcome(s, q, storePath, now) == AlreadyStarting(p, s.hooks[p])
            <==> ExecutiveRunning(s.disk.value, s.live)
    ensures forall e | Enabled(s, e) && e.Activate? ::
              Next(s, e) == s <==> ExecutiveRunning(s.disk.value, s.live)
  {
    ReachableInv(s);
    forall x | x in s.hooks ensures x == p { OneStarter(s, x, p); }
    forall e | Enabled(s, e) && e.Activate?
      ensures Next(s, e) == s <==> ExecutiveRunning(s.disk.value, s.live)
    {
      if !ExecutiveRunning(s.disk.value, s.live) {
        assert e.pid in Next(s, e).hooks;
      }
    }
  }

  lemma StepKeepsClaim(s: System, p: Pid, e: Event)
    requires Inv(s) && p in s.hooks && Enabled(s, e) && Disciplined(s, e)
    requires e != Die(p) && e != HooksFail(p) && e != MarkReady(p)
    ensures p in Next(s, e).hooks && Next(s, e).hooks[p] == s.hooks[p]
    ensures Inv(Next(s, e))
  {
    StepKeepsInvIff(s, e);
  }

  /**
   From its start until it dies, fails or marks itself ready, the starter stays the one
   recorded in the file, whatever the other processes do meanwhile.
   */
  lemma {:induction false} StarterKeepsItsClaim(s: System, p: Pid, es: seq<Event>)
    requires Inv(s) && p in s.hooks && Possible(s, es) && DisciplinedRun(s, es)
    requires Die(p) !in es && HooksFail(p) !in es && MarkReady(p) !in es
    ensures var s' := After(s, es);
            && p in s'.hooks && s'.hooks[p] == s.hooks[p]
            && s'.disk.Some? && s'.disk.value.ready == Starting(p, s.hooks[p])
    decreases |es|
  {
    if es != [] {
      assert es[0] in es;
      StepKeepsClaim(s, p, es[0]);
      StarterKeepsItsClaim(Next(s, es[0]), p, es[1..]);
    }
  }

  /**
   No use after cleanup.  An attach names a start for the requested store path.  Its
   directory still exists, with its hooks completed, exactly when somebody is attached
   at the time of the call.
   */
  lemma NoUseAfterCleanup(s: System, pid: Pid, storePath: Path, now: Time)
    requires Reachable(s) && ActivateOutcome(s, pid, storePath, now).Attach?
    ensures var id := ActivateOutcome(s, pid, storePath, now).startId;
            && s.disk.Some?
            && id.storePath == storePath
            && (id in s.dirs <==> s.disk.value.attached != map[])
            && (id in s.dirs <==> id in s.completed)
  {
    ReachableInv(s);
  }

  /** No process loses the directory of the start it is attached to. */
  lemma AttachedDirectoriesExist(s: System, pid: Pid)
    requires Reachable(s) && s.disk.Some? && pid in s.disk.value.attached
    ensures s.disk.value.attached[pid].startId in s.dirs
  {
    ReachableInv(s);
  }

  /**
   The guard of `write_activations_json` never fires, `MarkReady` always finds the file, and
   whoever starts or attaches leaves a running executive behind.
   */
  lemma WritesNeverRefused(s: System, e: Event)
    requires Reachable(s) && Enabled(s, e) && Disciplined(s, e)
    ensures e.MarkReady? ==> s.disk.Some?
    ensures Next(s, e).disk.Some? ==> Next(s, e).disk.value.executivePid != EXECUTIVE_NOT_STARTED
    ensures e.Activate? && !ActivateOutcome(s, e.pid, e.storePath, e.now).AlreadyStarting? ==>
              && Next(s, e).disk.Some? && ExecutiveRunning(Next(s, e).disk.value, Next(s, e).live)
              && e.pid in Next(s, e).disk.value.attached
  {
    ReachableInv(s);
    StepKeepsInvIff(s, e);
    assert Inv(Next(s, e));
  }

  predicate EmptiedOnDisk(s: System) {
    s.disk.Some? && s.disk.value.attached == map[]
  }

  /**
   Only a detach command can leave a file nobody is attached in; the watcher discards what
   it empties, and a discard takes every start directory with it.
   */
  lemma OnlyDetachLeavesEmptied(s: System, e: Event)
    requires Enabled(s, e) && !EmptiedOnDisk(s)
    ensures EmptiedOnDisk(Next(s, e)) <==> e.DetachCommand? && s.disk.value.attached.Keys == {e.pid}
    ensures Next(s, e).disk.None? && s.disk.Some? ==> Next(s, e).dirs == {}
  {
    var s' := Next(s, e);
    match e
    case Activate(_, _, _, _, _) => assert s' == s || e.pid in s'.disk.value.attached;
    case AttachCommand(_, _, _, _) => assert e.newPid in s'.disk.value.attached;
    case DetachCommand(_) =>
      assert s'.disk.value.attached.Keys == s.disk.value.attached.Keys - {e.pid};
      assert s'.disk.value.attached == map[] <==> s'.disk.value.attached.Keys == {};
    case _ =>
  }

  // ---------------------------------------------------------------------------
  // Where the discipline is broken
  // ---------------------------------------------------------------------------

  lemma ReachableByStep(s: System, e: Event)
    requires Reachable(s) && Enabled(s, e) && Disciplined(s, e)
    ensures Reachable(Next(s, e))
  {
    var es :| Possible(INITIAL, es) && DisciplinedRun(INITIAL, es) && After(INITIAL, es) == s;
    ExtendRun(INITIAL, es, e);
  }

  lemma {:induction false} ExtendRun(s: System, es: seq<Event>, e: Event)
    requires Possible(s, es) && DisciplinedRun(s, es)
    requires Enabled(After(s, es), e) && Disciplined(After(s, es), e)
    ensures Possible(s, es + [e]) && DisciplinedRun(s, es + [e])
    ensures After(s, es + [e]) == Next(After(s, es), e)
    decreases |es|
  {
    if es == [] {
      assert es + [e] == [e] && [e][1..] == [];
    } else {
      ExtendRun(Next(s, es[0]), es[1..], e);
      assert (es + [e])[1..] == es[1..] + [e];
    }
  }

  lemma InitialReachable()
    ensures Reachable(INITIAL)
  {
    assert Possible(INITIAL, []) && DisciplinedRun(INITIAL, []) && After(INITIAL, []) == INITIAL;
  }

  /** A lone process, with executive 2, runs the hooks of the start it began at time 0. */
  lemma OneProcessStarting(path: Path) returns (s: System)
    ensures Reachable(s) && s.live == {1, 2}
    ensures var id := StartIdentifier(path, 0);
            && s.hooks == map[1 := id] && s.dirs == {id}
            && s.disk == Some(State(Starting(1, id), 2, map[1 := Attachment(id, None)]))
  {
    InitialReachable();
    ReachableByStep(INITIAL, Spawn(1));
    s := Next(INITIAL, Spawn(1));
    ReachableByStep(s, Activate(1, path, 0, false, 2));
    s := Next(s, Activate(1, path, 0, false, 2));
  }

  /**
   Detaching the last process removes the directory but leaves the start ready in the
   file.  An activation that takes the lock before the executive discards that file
   attaches to the removed directory.
   */
  lemma AttachToRemovedDirectory(path: Path)
    ensures exists s, pid, now ::
              && Reachable(s) && pid in s.live
              && ActivateOutcome(s, pid, path, now) == Attach(StartIdentifier(path, 0))
              && StartIdentifier(path, 0) !in s.dirs
  {
    var s := OneProcessStarting(path);
    var id := StartIdentifier(path, 0);
    ReachableByStep(s, MarkReady(1));
    s := Next(s, MarkReady(1));
    ReachableByStep(s, DetachCommand(1));
    assert s.disk.value.attached - {1} == map[];
    s := Next(s, DetachCommand(1));
    assert s.disk.value.ready == IsReady(id) && id !in s.dirs;
    assert ActivateOutcome(s, 1, path, 5) == Attach(id) && 1 in s.live;
  }

  /** If the executive dies while hooks run, a second process starts beside the first. */
  lemma TwoStartersAfterExecutiveDies(path: Path)
    ensures exists s, e :: Reachable(s) && Enabled(s, e) && {1, 3} <= Next(s, e).hooks.Keys
  {
    var s := OneProcessStarting(path);
    ReachableByStep(s, Die(2));
    s := Next(s, Die(2));
    ReachableByStep(s, Spawn(3));
    s := Next(s, Spawn(3));
    var e := Activate(3, path, 7, false, 4);
    assert Enabled(s, e) && {1, 3} <= Next(s, e).hooks.Keys;
  }

  /** Processes 1 and 3 have started two environments, one after the other. */
  lemma TwoEnvironments(pathB: Path, pathA: Path) returns (s: System)
    requires pathB != pathA
    ensures var b, a := StartIdentifier(pathB, 0), StartIdentifier(pathA, 5);
            && Reachable(s) && s.hooks == map[] && s.dirs == {a, b}
            && s.disk == Some(State(IsReady(a), 2, map[1 := Attachment(b, None), 3 := Attachment(a, None)]))
  {
    s := OneProcessStarting(pathB);
    ReachableByStep(s, MarkReady(1));
    s := Next(s, MarkReady(1));
    ReachableByStep(s, Spawn(3));
    s := Next(s, Spawn(3));
    ReachableByStep(s, Activate(3, pathA, 5, false, 4));
    s := Next(s, Activate(3, pathA, 5, false, 4));
    ReachableByStep(s, MarkReady(3));
    s := Next(s, MarkReady(3));
  }

  /**
   Re-attaching the only holder of the ready start to another one leaves the ready start
   without a reference.
   */
  lemma ReplaceUnbacksReady(pathB: Path, pathA: Path)
    requires pathB != pathA
    ensures exists s, e ::
              && Reachable(s) && Enabled(s, e) && e.AttachCommand?
              && ReadyIsBacked(s.disk.value) && !ReadyIsBacked(Next(s, e).disk.value)
  {
    var s := TwoEnvironments(pathB, pathA);
    var e := AttachCommand(StartIdentifier(pathB, 0), 1, 3, None);
    assert Enabled(s, e);
    assert 3 in s.disk.value.attached && ReadyIsBacked(s.disk.value);
    ReplaceKeepsReadyBackedIff(s.disk.value, e.startId, 1, 3, None);
  }
}
