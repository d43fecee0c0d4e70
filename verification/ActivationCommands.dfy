/**
 The commands as the program runs them under the lock: read `state.json`, change the object,
 write it back, create or remove start directories.  Each is proved to take the step of the
 protocol that stands for it, so what `ActivationProtocol` proves of runs holds of these.
 */
module ActivationCommands {
  import opened Options
  import opened Activation
  import opened ActivationObject
  import opened ActivationProtocol
  import opened ActivationEffects

  /** The activation state directory: `state.json`, if it exists, and the start directories. */
  class StateDir {
    var file: Option<State>
    var dirs: set<StartIdentifier>

    constructor ()
      ensures Shows(INITIAL)
    {
      file, dirs := None, {};
    }

    /** This directory is what is on disk in `s`. */
    ghost predicate Shows(s: System)
      reads this
    {
      file == s.disk && dirs == s.dirs
    }

    /** `write_activations_json`, which refuses a state whose executive was never set. */
    method Write(state: ActivationState) returns (ok: bool)
      modifies this`file
      ensures ok <==> state.executivePid != EXECUTIVE_NOT_STARTED
      ensures file == if ok then Some(state.View()) else old(file)
    {
      if state.executivePid == EXECUTIVE_NOT_STARTED {
        return false;
      }
      file := Some(state.View());
      return true;
    }

    /** The existing state, or a new one where there is none or its executive is not running. */
    method Read(live: set<Pid>, ghost s: System) returns (state: ActivationState)
      requires Shows(s) && live == s.live
      ensures fresh(state) && state.View() == Baseline(s)
    {
      if file.Some? {
        state := new ActivationState.FromFile(file.value);
      } else {
        state := new ActivationState();
      }
      if state.executivePid == EXECUTIVE_NOT_STARTED || state.executivePid !in live {
        state := new ActivationState();
      }
    }

    /** `try_start_or_attach` and `start`, up to the release of the lock. */
    method TryStartOrAttach(
      pid: Pid, storePath: Path, now: Time, container: bool, newExecutive: Pid, live: set<Pid>, ghost s: System)
      returns (r: Result<StartOrAttachResult>)
      requires Shows(s) && live == s.live && pid > 0
      requires Enabled(s, Activate(pid, storePath, now, container, newExecutive))
      modifies this
      ensures r == Ok(ActivateOutcome(s, pid, storePath, now))
      ensures Shows(Next(s, Activate(pid, storePath, now, container, newExecutive)))
    {
      var state := Read(live, s);
      var outcome := state.StartOrAttach(pid, storePath, now, live);
      match outcome {
        case AlreadyStarting(_, _) =>
          return Ok(outcome);
        case Attach(_) =>
        case Start(id) =>
          dirs := dirs + {id};
          if container {
            state.SetExecutivePid(pid);
          } else if state.executivePid == EXECUTIVE_NOT_STARTED {
            state.SetExecutivePid(newExecutive);
          }
      }
      var ok := Write(state);
      return if ok then Ok(outcome) else Err;
    }

    /** The second locked section of `start`, once the hooks have completed. */
    method FinishStart(pid: Pid, startId: StartIdentifier, ghost s: System) returns (ok: bool)
      requires Shows(s) && Enabled(s, MarkReady(pid)) && startId == s.hooks[pid]
      modifies this`file
      ensures ok <==> s.disk.Some? && s.disk.value.executivePid != EXECUTIVE_NOT_STARTED
      ensures if ok then Shows(Next(s, MarkReady(pid))) else Shows(s)
    {
      if file.None? {
        return false;
      }
      var state := new ActivationState.FromFile(file.value);
      state.SetReady(startId);
      ok := Write(state);
    }

    /** A missing file means that somebody else has cleaned up already. */
    method Detach(pid: Pid, ghost s: System) returns (ok: bool)
      requires Shows(s)
      modifies this
      ensures ok <==> s.disk.None?
                      || (pid in s.disk.value.attached && s.disk.value.executivePid != EXECUTIVE_NOT_STARTED)
      ensures ok ==> Shows(if s.disk.None? then s else Next(s, DetachCommand(pid)))
      ensures !ok ==> && file == s.disk
                      && dirs == if pid in s.disk.value.attached then Next(s, DetachCommand(pid)).dirs else s.dirs
    {
      if file.None? {
        return true;
      }
      var state := new ActivationState.FromFile(file.value);
      var r := state.Detach(pid);
      if r.Err? {
        return false;
      }
      if r.value.Some? {
        dirs := dirs - {r.value.value};
      }
      ok := Write(state);
    }

    /** What `attach` is asked to do: exactly one of its two options must be given. */
    static function Requested(
      startId: StartIdentifier, pid: Pid, timeout: Option<nat>, removePid: Option<Pid>, now: Time): (e: Option<Event>)
      ensures e.Some? <==> timeout.Some? != removePid.Some?
      ensures e.Some? ==> e.value.AttachCommand? && e.value.startId == startId && e.value.newPid == pid
    {
      match (timeout, removePid)
      case (Some(ms), None) => Some(AttachCommand(startId, pid, pid, Some(now + ms)))
      case (None, Some(other)) => Some(AttachCommand(startId, other, pid, None))
      case _ => None
    }

    method Attach(
      startId: StartIdentifier, pid: Pid, timeout: Option<nat>, removePid: Option<Pid>, now: Time, ghost s: System)
      returns (ok: bool)
      requires Shows(s)
      modifies this`file
      ensures ok <==> && s.disk.Some? && s.disk.value.executivePid != EXECUTIVE_NOT_STARTED
                      && Requested(startId, pid, timeout, removePid, now).Some?
                      && Enabled(s, Requested(startId, pid, timeout, removePid, now).value)
      ensures Shows(if ok then Next(s, Requested(startId, pid, timeout, removePid, now).value) else s)
    {
      if file.None? {
        return false;
      }
      var state := new ActivationState.FromFile(file.value);
      var r: Result<()>;
      match (timeout, removePid) {
        case (Some(ms), None) => r := state.ReplaceAttachment(startId, pid, pid, Some(now + ms));
        case (None, Some(other)) => r := state.ReplaceAttachment(startId, other, pid, None);
        case _ => return false;
      }
      if r.Err? {
        return false;
      }
      ok := Write(state);
    }

    /** `cleanup_pid`: hands the emptied state back, unwritten, for the whole directory to go. */
    method CleanupPid(pid: Pid, live: set<Pid>, now: Time, ghost s: System)
      returns (r: Result<Option<ActivationState>>)
      requires Shows(s) && live == s.live
      modifies this
      ensures s.disk.None? ==> r.Err? && Shows(s)
      ensures s.disk.Some? && r == Ok(None) ==>
                Shows(Next(s, WatcherCleanup(pid, now))) && Next(s, WatcherCleanup(pid, now)).disk.Some?
      ensures s.disk.Some? && r.Ok? && r.value.Some? ==>
                && fresh(r.value.value) && r.value.value.attached == map[] && Shows(s)
                && Next(s, WatcherCleanup(pid, now)) == Discard(s)
      ensures s.disk.Some? && r.Err? ==> s.disk.value.executivePid == EXECUTIVE_NOT_STARTED && file == s.disk
    {
      if file.None? {
        return Err;
      }
      var state := new ActivationState.FromFile(file.value);
      var emptied, modified := state.CleanupPid(pid, live, now);
      if state.attached == map[] {
        return Ok(Some(state));
      }
      if emptied.Some? {
        dirs := dirs - {emptied.value};
      }
      if modified {
        var ok := Write(state);
        if !ok { return Err; }
      }
      return Ok(None);
    }

    /** `cleanup_all`: skipped if somebody is attached after all. */
    method CleanupAll(state: ActivationState) returns (cleaned: bool)
      modifies this
      ensures cleaned <==> state.attached == map[]
      ensures if cleaned then file == None && dirs == {} else file == old(file) && dirs == old(dirs)
    {
      if state.attached != map[] {
        return false;
      }
      file, dirs := None, {};
      return true;
    }

    /**
     The executive on learning of an exit, all under one lock.  After an error it still removes
     what nobody is attached to.
     */
    method OnExit(pid: Pid, live: set<Pid>, now: Time, ghost s: System) returns (r: Result<bool>)
      requires Shows(s) && live == s.live
      modifies this
      ensures r.Ok? ==> s.disk.Some? && Shows(Next(s, WatcherCleanup(pid, now)))
      ensures r.Ok? ==> (r.value <==> file.None?)
      ensures r.Err? ==> if s.disk.None? then Shows(s) else s.disk.value.executivePid == EXECUTIVE_NOT_STARTED
    {
      var checked := CleanupPid(pid, live, now, s);
      var finished := false;
      if checked.Ok? {
        if checked.value.Some? {
          finished := CleanupAll(checked.value.value);
        }
        return Ok(finished);
      }
      if file.Some? {
        var state := new ActivationState.FromFile(file.value);
        finished := CleanupAll(state);
      }
      return Err;
    }

    /** The executive on learning that the file changed, say because the last process detached. */
    method OnFileChanged(ghost s: System) returns (r: Result<bool>)
      requires Shows(s)
      modifies this
      ensures r.Err? <==> s.disk.None?
      ensures r == Ok(true) <==> Enabled(s, DiscardEmpty)
      ensures Shows(if r == Ok(true) then Next(s, DiscardEmpty) else s)
    {
      if file.None? {
        return Err;
      }
      var state := new ActivationState.FromFile(file.value);
      if state.attached != map[] {
        return Ok(false);
      }
      var cleaned := CleanupAll(state);
      return Ok(cleaned);
    }
  }

  // ---------------------------------------------------------------------------
  // What the options of `attach` promise
  // ---------------------------------------------------------------------------

  /**
   After `attach --timeout-ms`, and anything that does not concern the process, a cleanup
   detaches it exactly if it is not running and the time is up.
   */
  lemma TimeoutHolds(s: System, startId: StartIdentifier, pid: Pid, ms: nat, t: Time, es: seq<Event>, now: Time)
    requires var e := StateDir.Requested(startId, pid, Some(ms), None, t).value;
             Enabled(s, e) && Possible(Next(s, e), es) && Unconcerned(Next(s, e), es, pid)
    ensures var e := StateDir.Requested(startId, pid, Some(ms), None, t).value;
            var s' := After(Next(s, e), es);
            && pid in Attached(s) && Attached(s)[pid].startId == startId
            && pid in Attached(s') && Attached(s')[pid] == Attachment(startId, Some(t + ms))
            && Enabled(s', WatcherCleanup(pid, now))
            && (pid in Attached(Next(s', WatcherCleanup(pid, now))) <==> pid in s'.live || now < t + ms)
  {
    var e := StateDir.Requested(startId, pid, Some(ms), None, t).value;
    NamedAttachments(s, e);
    StaysThrough(Next(s, e), es, pid);
    NamedAttachments(After(Next(s, e), es), WatcherCleanup(pid, now));
  }

  /**
   After `attach --remove-pid`, the other process is gone and the named one has its start; a
   cleanup detaches it exactly if it is not running.
   */
  lemma HandOverHolds(s: System, startId: StartIdentifier, pid: Pid, other: Pid, t: Time, es: seq<Event>, now: Time)
    requires var e := StateDir.Requested(startId, pid, None, Some(other), t).value;
             Enabled(s, e) && Possible(Next(s, e), es) && Unconcerned(Next(s, e), es, pid)
    ensures var e := StateDir.Requested(startId, pid, None, Some(other), t).value;
            var s' := After(Next(s, e), es);
            && other in Attached(s) && Attached(s)[other].startId == startId
            && (other != pid ==> other !in Attached(Next(s, e)))
            && pid in Attached(s') && Attached(s')[pid] == Attachment(startId, None)
            && Enabled(s', WatcherCleanup(pid, now))
            && (pid in Attached(Next(s', WatcherCleanup(pid, now))) <==> pid in s'.live)
  {
    var e := StateDir.Requested(startId, pid, None, Some(other), t).value;
    NamedAttachments(s, e);
    StaysThrough(Next(s, e), es, pid);
    NamedAttachments(After(Next(s, e), es), WatcherCleanup(pid, now));
  }
}
