/**
 What each step changes and what it leaves alone, component by component, and what follows
 for whole runs.  Nothing here refers to how a step is computed.
 */
module ActivationEffects {
  import opened Options
  import opened Activation
  import opened ActivationProtocol

  function Attached(s: System): Attachments {
    if s.disk.Some? then s.disk.value.attached else map[]
  }

  /** The file names an executive, and it runs. */
  predicate HasExecutive(s: System) {
    s.disk.Some? && s.disk.value.executivePid != 0 && s.disk.value.executivePid in s.live
  }

  /** `p` may be cleaned up: it does not run, and no expiration lies ahead. */
  predicate Expendable(s: System, p: Pid, now: Time)
    requires p in Attached(s)
  {
    p !in s.live && (Attached(s)[p].expiration.Some? ==> now >= Attached(s)[p].expiration.value)
  }

  // ---------------------------------------------------------------------------
  // What an activation is told
  // ---------------------------------------------------------------------------

  /**
   A caller waits exactly for a starter that is alive, under a live executive; attaches
   exactly to a ready start of its own store path; and otherwise starts, at its own time.
   */
  lemma OutcomeIff(s: System, pid: Pid, storePath: Path, now: Time)
    ensures var r := ActivateOutcome(s, pid, storePath, now);
            && (forall p, id :: r == AlreadyStarting(p, id)
                                <==> HasExecutive(s) && s.disk.value.ready == Starting(p, id) && p in s.live)
            && (forall id :: r == Attach(id)
                             <==> HasExecutive(s) && s.disk.value.ready == IsReady(id) && id.storePath == storePath)
            && (r.Start? ==> r == Start(StartIdentifier(storePath, now)))
  {
  }

  // ---------------------------------------------------------------------------
  // Attachments
  // ---------------------------------------------------------------------------

  /** The step is about `p`'s attachment: nothing else may change it. */
  predicate Concerns(s: System, e: Event, p: Pid)
    requires p in Attached(s)
  {
    match e
    case DetachCommand(q) => q == p
    case WatcherCleanup(q, now) => q == p && Expendable(s, p, now)
    case AttachCommand(_, oldPid, newPid, _) => oldPid == p || newPid == p
    case Activate(q, _, _, _, _) => q == p || !HasExecutive(s)
    case _ => false
  }

  /** Whoever the step is not about stays attached as before, to the same start, as long. */
  lemma OthersStayAttached(s: System, e: Event, p: Pid)
    requires Enabled(s, e) && p in Attached(s) && !Concerns(s, e, p)
    ensures p in Attached(Next(s, e)) && Attached(Next(s, e))[p] == Attached(s)[p]
  {
  }

  /** Nobody becomes attached but the caller of an activation and the new pid of a re-attach. */
  lemma OnlyNamedBecomeAttached(s: System, e: Event, p: Pid)
    requires Enabled(s, e) && p !in Attached(s) && p in Attached(Next(s, e))
    ensures (e.Activate? && e.pid == p) || (e.AttachCommand? && e.newPid == p)
  {
  }

  /** What becomes of the attachments a step is about. */
  lemma NamedAttachments(s: System, e: Event)
    requires Enabled(s, e)
    ensures var after := Attached(Next(s, e));
            && (e.DetachCommand? ==> e.pid !in after)
            && (e.WatcherCleanup? && e.pid in Attached(s) ==>
                  (e.pid in after <==> !Expendable(s, e.pid, e.now)))
            && (e.AttachCommand? ==> && e.newPid in after && after[e.newPid] == Attachment(e.startId, e.expiration)
                                     && (e.oldPid != e.newPid ==> e.oldPid !in after))
            && (e.DiscardEmpty? ==> after == map[])
  {
  }

  /** A caller that is told to wait changes nothing; any other ends attached to what it is told. */
  lemma CallerIsAttached(s: System, e: Event)
    requires Enabled(s, e) && e.Activate?
    ensures var r := ActivateOutcome(s, e.pid, e.storePath, e.now);
            var after := Attached(Next(s, e));
            && (r.AlreadyStarting? ==> Next(s, e) == s)
            && (!r.AlreadyStarting? ==> e.pid in after && after[e.pid] == Attachment(r.startId, None))
            && (!HasExecutive(s) ==> after.Keys == {e.pid})
  {
  }

  /** No step of the run is about `p`. */
  predicate Unconcerned(s: System, es: seq<Event>, p: Pid)
    requires Possible(s, es)
    decreases |es|
  {
    es == [] || (p in Attached(s) && !Concerns(s, es[0], p) && Unconcerned(Next(s, es[0]), es[1..], p))
  }

  lemma {:induction false} StaysThrough(s: System, es: seq<Event>, p: Pid)
    requires p in Attached(s) && Possible(s, es) && Unconcerned(s, es, p)
    ensures p in Attached(After(s, es)) && Attached(After(s, es))[p] == Attached(s)[p]
    decreases |es|
  {
    if es != [] {
      OthersStayAttached(s, es[0], p);
      StaysThrough(Next(s, es[0]), es[1..], p);
    }
  }

  /** Events that end a live process's attachment, or the executive that keeps it. */
  predicate Disturbs(e: Event, p: Pid, executive: Pid) {
    match e
    case Die(q) => q == p || q == executive
    case DetachCommand(q) => q == p
    case AttachCommand(_, oldPid, newPid, _) => oldPid == p || newPid == p
    case Activate(q, _, _, container, _) => q == p || container
    case _ => false
  }

  lemma UndisturbedStep(s: System, e: Event, p: Pid)
    requires Enabled(s, e) && p in Attached(s) && p in s.live && HasExecutive(s)
    requires !Disturbs(e, p, s.disk.value.executivePid)
    ensures p in Attached(Next(s, e)) && Attached(Next(s, e))[p] == Attached(s)[p] && p in Next(s, e).live
    ensures HasExecutive(Next(s, e)) && Next(s, e).disk.value.executivePid == s.disk.value.executivePid
  {
    OthersStayAttached(s, e, p);
  }

  /**
   A live process stays attached to its start, whose directory stays in place, over every
   disciplined run in which it does not die, is not detached, re-attached or activated
   again, and the executive does not die or get replaced by a container's.
   */
  lemma {:induction false} LiveProcessStaysAttached(s: System, es: seq<Event>, p: Pid)
    requires Inv(s) && p in Attached(s) && p in s.live && HasExecutive(s)
    requires Possible(s, es) && DisciplinedRun(s, es)
    requires forall e :: e in es ==> !Disturbs(e, p, s.disk.value.executivePid)
    ensures var s' := After(s, es);
            && p in Attached(s') && Attached(s')[p] == Attached(s)[p]
            && Attached(s)[p].startId in s'.dirs && p in s'.live && HasExecutive(s')
    decreases |es|
  {
    if es != [] {
      assert es[0] in es;
      StepKeepsInvIff(s, es[0]);
      UndisturbedStep(s, es[0], p);
      LiveProcessStaysAttached(Next(s, es[0]), es[1..], p);
    }
  }

  // ---------------------------------------------------------------------------
  // The ready field, the executive, the hooks and the file
  // ---------------------------------------------------------------------------

  /** The step takes `e.pid` off the attached processes for good. */
  predicate Detaches(s: System, e: Event)
    requires Enabled(s, e)
  {
    e.DetachCommand? || (e.WatcherCleanup? && e.pid in Attached(s) && Expendable(s, e.pid, e.now))
  }

  /** The step starts an activation. */
  predicate Starts(s: System, e: Event, id: StartIdentifier) {
    e.Activate? && ActivateOutcome(s, e.pid, e.storePath, e.now) == Start(id)
  }

  /**
   While the file stays, `ready` changes only by a start, by the mark that ends one, by the
   reset for want of an executive, and by a detach that leaves somebody attached, but nobody
   to the ready start.
   */
  lemma ReadyAfter(s: System, e: Event)
    requires Enabled(s, e) && s.disk.Some? && Next(s, e).disk.Some?
    ensures var before, after := s.disk.value.ready, Next(s, e).disk.value.ready;
            && (forall id :: Starts(s, e, id) ==> after == Starting(e.pid, id))
            && (e.MarkReady? ==> after == IsReady(s.hooks[e.pid]))
            && (Detaches(s, e) ==>
                  after == if before.IsReady? && Attached(Next(s, e)) != map[]
                              && (forall q :: q in Attached(s) && q != e.pid ==>
                                    Attached(s)[q].startId != before.startId)
                           then NotReady else before)
            && (!e.MarkReady? && !Detaches(s, e) && !(exists id :: Starts(s, e, id)) ==> after == before)
  {
    if e.Activate? {
      var r := ActivateOutcome(s, e.pid, e.storePath, e.now);
      assert r.Start? ==> Starts(s, e, r.startId);
    }
    if Detaches(s, e) {
      var before, rest := s.disk.value.ready, Attached(Next(s, e));
      assert forall q :: q in rest <==> q in Attached(s) && q != e.pid;
      assert before.IsReady? ==>
          (Referenced(rest, before.startId)
           <==> exists q :: q in Attached(s) && q != e.pid && Attached(s)[q].startId == before.startId) by {
        if q :| q in Attached(s) && q != e.pid && before.IsReady? && Attached(s)[q].startId == before.startId {
          assert q in rest;
        }
      }
    }
  }

  /**
   Only a start sets the executive: to the caller itself in a container, and otherwise to a
   new process exactly if none runs.
   */
  lemma ExecutiveAfter(s: System, e: Event)
    requires Enabled(s, e) && Next(s, e).disk.Some?
    ensures var after := Next(s, e).disk.value.executivePid;
            && (forall id :: Starts(s, e, id) ==>
                  after == if e.container then e.pid
                           else if HasExecutive(s) then s.disk.value.executivePid else e.newExecutive)
            && (!(exists id :: Starts(s, e, id)) ==> s.disk.Some? && after == s.disk.value.executivePid)
  {
    if e.Activate? {
      var r := ActivateOutcome(s, e.pid, e.storePath, e.now);
      assert r.Start? ==> Starts(s, e, r.startId);
    }
  }

  /** Processes come and go by being spawned, as an executive too, and by dying. */
  lemma ProcessesAfter(s: System, e: Event, p: Pid)
    requires Enabled(s, e)
    ensures p in Next(s, e).live
            <==> && e != Die(p)
                 && (|| p in s.live || e == Spawn(p)
                     || (e.Activate? && p == e.newExecutive && !e.container && !HasExecutive(s)))
  {
  }

  /** Hooks run from their process's start to its end, its failure or its mark. */
  lemma HooksAfter(s: System, e: Event, p: Pid, id: StartIdentifier)
    requires Enabled(s, e)
    ensures p in Next(s, e).hooks && Next(s, e).hooks[p] == id
            <==> || (Starts(s, e, id) && e.pid == p)
                 || (p in s.hooks && s.hooks[p] == id && e != Die(p) && e != HooksFail(p) && e != MarkReady(p))
  {
  }

  /** The file appears with a start, and goes when nobody is, or is left, attached. */
  lemma FileAfter(s: System, e: Event)
    requires Enabled(s, e)
    ensures Next(s, e).disk.Some?
            <==> || e.Activate?
                 || (s.disk.Some? && !e.DiscardEmpty?
                     && (e.WatcherCleanup? ==>
                           exists q :: q in Attached(s) && (q == e.pid ==> !Expendable(s, q, e.now))))
  {
    if e.WatcherCleanup? {
      var after := CleanupPid(s.disk.value, e.pid, s.live, e.now).0.attached;
      assert forall q :: q in after <==> q in Attached(s) && (q == e.pid ==> !Expendable(s, q, e.now));
      if after != map[] {
        assert after.Keys != {};
        var q := Pick(after.Keys);
        assert q in after;
      }
    }
  }

  // ---------------------------------------------------------------------------
  // Start directories
  // ---------------------------------------------------------------------------

  /** Somebody other than `p` is attached to `id`. */
  predicate HeldByOthers(attached: Attachments, p: Pid, id: StartIdentifier) {
    exists q :: q in attached && q != p && attached[q].startId == id
  }

  /** `p` holds the start it is attached to alone. */
  predicate HoldsAlone(attached: Attachments, p: Pid, id: StartIdentifier) {
    p in attached && attached[p].startId == id && !HeldByOthers(attached, p, id)
  }

  /** The directory of `id` goes: with its last process, or with everything. */
  predicate Removed(s: System, e: Event, id: StartIdentifier)
    requires Enabled(s, e)
  {
    || (Detaches(s, e) && HoldsAlone(Attached(s), e.pid, id))
    || (Next(s, e).disk.None? && s.disk.Some?)
  }

  lemma DetachLeaves(attached: Attachments, p: Pid, id: StartIdentifier)
    ensures Referenced(attached - {p}, id) <==> HeldByOthers(attached, p, id)
  {
    if q :| q in attached && q != p && attached[q].startId == id {
      assert q in attached - {p};
    }
  }

  /**
   A directory is there exactly if it was, or is now started, and is not removed: its last
   process leaving, by command or cleanup, removes it while others stay attached.
   */
  lemma DirectoriesAfter(s: System, e: Event, id: StartIdentifier)
    requires Enabled(s, e)
    ensures id in Next(s, e).dirs <==> !Removed(s, e, id) && (id in s.dirs || Starts(s, e, id))
    ensures id in Next(s, e).completed
            <==> !Removed(s, e, id) && (id in s.completed || (e.MarkReady? && id == s.hooks[e.pid]))
  {
    if Detaches(s, e) { DetachLeaves(Attached(s), e.pid, id); }
  }

  /** No directory is left that nobody is attached to. */
  ghost predicate NoOrphans(s: System) {
    forall id :: id in s.dirs ==> Referenced(Attached(s), id)
  }

  /**
   What leaves a directory behind: an activation or a re-attach that moves the only holder of
   a start to another one, and an activation for want of an executive.
   */
  ghost predicate Strands(s: System, e: Event)
    requires Enabled(s, e)
  {
    match e
    case Activate(p, storePath, now, _, _) =>
      var r := ActivateOutcome(s, p, storePath, now);
      if !HasExecutive(s) then exists id :: id in s.dirs && id != r.startId
      else !r.AlreadyStarting? && exists id :: id in s.dirs && id != r.startId && HoldsAlone(Attached(s), p, id)
    case AttachCommand(startId, _, newPid, _) =>
      exists id :: id in s.dirs && id != startId && HoldsAlone(Attached(s), newPid, id)
    case _ => false
  }

  /** The references to a start after a step, from those before. */
  lemma ReferencedAfter(s: System, e: Event, id: StartIdentifier)
    requires Enabled(s, e) && (e.Activate? ==> HasExecutive(s)) && (e.Activate? || e.AttachCommand?)
    requires e.Activate? ==> !ActivateOutcome(s, e.pid, e.storePath, e.now).AlreadyStarting?
    requires Referenced(Attached(s), id)
    ensures var (p, target) := if e.Activate? then (e.pid, ActivateOutcome(s, e.pid, e.storePath, e.now).startId)
                               else (e.newPid, e.startId);
            Referenced(Attached(Next(s, e)), id) <==> id == target || !HoldsAlone(Attached(s), p, id)
  {
    var (p, target) := if e.Activate? then (e.pid, ActivateOutcome(s, e.pid, e.storePath, e.now).startId)
                       else (e.newPid, e.startId);
    var before, after := Attached(s), Attached(Next(s, e));
    assert p in after && after[p].startId == target;
    if id != target {
      assert forall q :: q in after && q != p ==> q in before && after[q] == before[q];
      if q :| q in before && q != p && before[q].startId == id {
        assert q in after && after[q].startId == id;
      }
    }
  }

  lemma StrandsIff(s: System, e: Event)
    requires Inv(s) && Enabled(s, e) && NoOrphans(s) && (e.Activate? || e.AttachCommand?)
    ensures NoOrphans(Next(s, e)) <==> !Strands(s, e)
  {
    var s' := Next(s, e);
    if e.Activate? && ActivateOutcome(s, e.pid, e.storePath, e.now).AlreadyStarting? {
      assert s' == s;
    } else if e.Activate? && !HasExecutive(s) {
      CallerIsAttached(s, e);
      assert forall id :: Referenced(Attached(s'), id) <==> id == Attached(s')[e.pid].startId by {
        assert e.pid in Attached(s');
      }
    } else {
      var target := if e.Activate? then ActivateOutcome(s, e.pid, e.storePath, e.now).startId else e.startId;
      var p := if e.Activate? then e.pid else e.newPid;
      forall id | id in s'.dirs
        ensures Referenced(Attached(s'), id) <==> id == target || !HoldsAlone(Attached(s), p, id)
      {
        if id in s.dirs { ReferencedAfter(s, e, id); } else { assert p in Attached(s'); }
      }
    }
  }

  lemma OthersStrandNothing(s: System, e: Event)
    requires Inv(s) && Enabled(s, e) && NoOrphans(s) && !e.Activate? && !e.AttachCommand?
    ensures NoOrphans(Next(s, e))
  {
    var s' := Next(s, e);
    forall id | id in s'.dirs ensures Referenced(Attached(s'), id) {
      DirectoriesAfter(s, e, id);
      var q :| q in Attached(s) && Attached(s)[q].startId == id;
      if Detaches(s, e) {
        DetachLeaves(Attached(s), e.pid, id);
        assert s'.disk.Some? ==> Attached(s') == Attached(s) - {e.pid};
      } else {
        OthersStayAttached(s, e, q);
      }
    }
  }

  /**
   Start directories do not pile up: a step keeps every directory in use if and only if it
   does not move the only holder of a start elsewhere, or reset the state.
   */
  lemma NoOrphansIff(s: System, e: Event)
    requires Inv(s) && Enabled(s, e) && NoOrphans(s)
    ensures NoOrphans(Next(s, e)) <==> !Strands(s, e)
  {
    if e.Activate? || e.AttachCommand? { StrandsIff(s, e); } else { OthersStrandNothing(s, e); }
  }

  /** A re-attach within the discipline after which a directory is left that nobody uses. */
  lemma DirectoryStranded(pathB: Path, pathA: Path)
    requires pathB != pathA
    ensures exists s :: Reachable(s) && s.disk.Some? && !NoOrphans(s)
  {
    var b, a := StartIdentifier(pathB, 0), StartIdentifier(pathA, 5);
    var s := TwoEnvironments(pathB, pathA);
    var e := AttachCommand(a, 3, 1, None);
    assert !DropsReadyHolder(s.disk.value, a, 3, 1);
    ReachableByStep(s, e);
    s := Next(s, e);
    assert b in s.dirs && Attached(s) == map[1 := Attachment(a, None)];
    assert !Referenced(Attached(s), b);
  }
}
