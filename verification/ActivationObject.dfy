/** The `ActivationState` object, updated in place under the state file's lock. */
module ActivationObject {
  import opened Options
  import opened Activation

  class ActivationState {
    var ready: Ready
    var executivePid: Pid
    var attached: Attachments

    constructor ()
      ensures View() == FRESH_STATE
    {
      ready, executivePid, attached := NotReady, EXECUTIVE_NOT_STARTED, map[];
    }

    /** The state read back from `state.json`. */
    constructor FromFile(s: State)
      ensures View() == s
    {
      ready, executivePid, attached := s.ready, s.executivePid, s.attached;
    }

    function View(): State
      reads this
    {
      State(ready, executivePid, attached)
    }

    method Start(pid: Pid, storePath: Path, now: Time) returns (startId: StartIdentifier)
      modifies this
      ensures startId == StartIdentifier(storePath, now)
      ensures ready == Starting(pid, startId)
      ensures attached == old(attached)[pid := Attachment(startId, None)]
      ensures executivePid == old(executivePid)
    {
      startId := StartIdentifier(storePath, now);
      ready := Ready.Starting(pid, startId);
      attached := attached[pid := Attachment(startId, None)];
    }

    method StartOrAttach(pid: Pid, storePath: Path, now: Time, live: set<Pid>)
      returns (r: StartOrAttachResult)
      modifies this
      ensures (View(), r) == Activation.StartOrAttach(old(View()), pid, storePath, now, live)
      ensures executivePid == old(executivePid)
      ensures r.AlreadyStarting? ==> View() == old(View()) && ready == Starting(r.pid, r.startId) && r.pid in live
      ensures !r.AlreadyStarting? ==>
                && pid in attached && attached[pid] == Attachment(r.startId, None)
                && forall p :: p != pid ==> && (p in attached <==> p in old(attached))
                                            && (p in attached ==> attached[p] == old(attached)[p])
      ensures r.Attach? ==> ready == old(ready) == IsReady(r.startId) && r.startId.storePath == storePath
      ensures r.Start? ==> ready == Starting(pid, r.startId) && r.startId == StartIdentifier(storePath, now)
    {
      if ready.Starting? && ready.pid in live {
        return AlreadyStarting(ready.pid, ready.startId);
      }
      match ready {
        case IsReady(id) =>
          if id.storePath == storePath {
            attached := attached[pid := Attachment(id, None)];
            return StartOrAttachResult.Attach(id);
          }
        case _ =>
      }
      var id := Start(pid, storePath, now);
      return StartOrAttachResult.Start(id);
    }

    method SetExecutivePid(pid: Pid)
      modifies this`executivePid
      ensures executivePid == pid
    {
      executivePid := pid;
    }

    /** Unconditional: whatever `ready` was, it now names `startId`. */
    method SetReady(startId: StartIdentifier)
      modifies this`ready
      ensures ready == IsReady(startId)
    {
      ready := IsReady(startId);
    }

    method UpdateReadyAfterDetach()
      requires attached != map[]
      modifies this`ready
      ensures ready == ReadyAfterDetach(old(ready), attached)
    {
      match ready {
        case IsReady(id) =>
          IndexAgreesWithScan(attached, id);
          if id !in AttachmentsByStartId(attached) {
            ready := NotReady;
          }
        case Starting(_, _) =>
        case NotReady =>
      }
    }

    method Detach(pid: Pid) returns (r: Result<Option<StartIdentifier>>)
      modifies this
      ensures pid !in old(attached) ==> r == Err && View() == old(View())
      ensures pid in old(attached) ==> r.Ok? && (View(), r.value) == Activation.Detach(old(View()), pid)
    {
      if pid !in attached {
        return Err;
      }
      var id := attached[pid].startId;
      attached := attached - {pid};
      var hasRemaining := exists p :: p in attached && attached[p].startId == id;
      if attached != map[] {
        UpdateReadyAfterDetach();
      }
      return if hasRemaining then Ok(None) else Ok(Some(id));
    }

    method CleanupPid(pid: Pid, live: set<Pid>, now: Time)
      returns (emptied: Option<StartIdentifier>, detached: bool)
      modifies this
      ensures (View(), emptied) == Activation.CleanupPid(old(View()), pid, live, now)
      ensures pid in old(attached) ==>
                (detached <==> && pid !in live
                               && (old(attached)[pid].expiration.Some? ==> now >= old(attached)[pid].expiration.value))
      ensures attached == if pid in old(attached) && detached then old(attached) - {pid} else old(attached)
      ensures pid !in old(attached) ==> !detached
    {
      if pid !in attached {
        return None, false;
      }
      var a := attached[pid];
      var keep := match a.expiration
                  case Some(e) => now < e || pid in live
                  case None => pid in live;
      if keep {
        return None, false;
      }
      var r := Detach(pid);
      return r.value, true;
    }

    /**
     On a mismatch the old pid has already been removed; the error keeps the caller from
     writing that state back.
     */
    method ReplaceAttachment(startId: StartIdentifier, oldPid: Pid, newPid: Pid, expiration: Option<Time>)
      returns (r: Result<()>)
      modifies this`attached
      ensures r.Ok? <==> oldPid in old(attached) && old(attached)[oldPid].startId == startId
      ensures r.Ok? ==> && newPid in attached && attached[newPid] == Attachment(startId, expiration)
                        && forall p :: p != newPid ==>
                             && (p in attached <==> p in old(attached) && p != oldPid)
                             && (p in attached ==> attached[p] == old(attached)[p])
      ensures r.Ok? ==> View() == Replace(old(View()), startId, oldPid, newPid, expiration)
      ensures r.Err? ==> attached == old(attached) - {oldPid}
    {
      if oldPid !in attached {
        assert attached == attached - {oldPid};
        return Err;
      }
      var found := attached[oldPid];
      attached := attached - {oldPid};
      if found.startId != startId {
        return Err;
      }
      attached := attached[newPid := Attachment(startId, expiration)];
      return Ok(());
    }
  }
}
