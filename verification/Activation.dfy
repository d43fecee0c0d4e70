/**
 The activation state kept in `state.json`: who is attached to which start, and
 which start, if any, new callers may attach to.

 This module defines the operations on plain values, which is what the protocol and
 the cleanup sweep reason about.  `ActivationObject` is the mutable object of the
 program, whose methods are proved to compute these operations.
 */
module Activation {
  import opened Options

  type Pid = int
  type Time = int

  const EXECUTIVE_NOT_STARTED: Pid := 0

  /** A path, as the list of its components: `PathBuf` equality is component-wise. */
  datatype Component = Root | Parent | Normal(name: string)
  type Path = seq<Component>

  datatype StartIdentifier = StartIdentifier(storePath: Path, timestamp: int)

  datatype Attachment = Attachment(startId: StartIdentifier, expiration: Option<Time>)

  datatype Ready =
    | NotReady
    | IsReady(startId: StartIdentifier)
    | Starting(pid: Pid, startId: StartIdentifier)

  type Attachments = map<Pid, Attachment>

  datatype State = State(ready: Ready, executivePid: Pid, attached: Attachments)

  datatype StartOrAttachResult =
    | Start(startId: StartIdentifier)
    | Attach(startId: StartIdentifier)
    | AlreadyStarting(pid: Pid, startId: StartIdentifier)

  const FRESH_STATE := State(NotReady, EXECUTIVE_NOT_STARTED, map[])

  // ---------------------------------------------------------------------------
  // The index from starts to attachments
  // ---------------------------------------------------------------------------

  /** The direct scan: does any attachment reference `id`? */
  predicate Referenced(attached: Attachments, id: StartIdentifier) {
    exists p :: p in attached && attached[p].startId == id
  }

  predicate IsLeast(s: set<Pid>, p: Pid) {
    p in s && forall q :: q in s ==> p <= q
  }

  lemma {:induction false} HasLeast(s: set<Pid>)
    requires s != {}
    ensures exists p :: IsLeast(s, p)
  {
    var x := Pick(s);
    var rest := s - {x};
    if rest == {} {
      assert IsLeast({x}, x) && s == {x};
    } else {
      HasLeast(rest);
      var m :| IsLeast(rest, m);
      assert IsLeast(s, if x <= m then x else m) by {
        assert forall q :: q in s ==> q == x || q in rest;
      }
    }
  }

  function Least(s: set<Pid>): (p: Pid)
    requires s != {}
    ensures IsLeast(s, p)
  {
    HasLeast(s);
    var p :| p in s && IsLeast(s, p);
    p
  }

  /** The order in which a `BTreeMap` is iterated. */
  function Ascending(s: set<Pid>): (ps: seq<Pid>)
    ensures forall p :: p in ps <==> p in s
    ensures forall i, j :: 0 <= i < j < |ps| ==> ps[i] < ps[j]
  {
    if s == {} then [] else
      var p := Least(s);
      [p] + Ascending(s - {p})
  }

  datatype Entry = Entry(pid: Pid, expiration: Option<Time>)

  type Index = map<StartIdentifier, seq<Entry>>

  /** One step of the fold: `entry(start_id).or_default().push((pid, expiration))`. */
  function PushEntry(index: Index, pid: Pid, a: Attachment): Index {
    var before := if a.startId in index then index[a.startId] else [];
    index[a.startId := before + [Entry(pid, a.expiration)]]
  }

  function FoldIndex(attached: Attachments, pids: seq<Pid>): Index
    requires forall p :: p in pids ==> p in attached
  {
    if pids == [] then map[] else
      var last := pids[|pids| - 1];
      PushEntry(FoldIndex(attached, pids[..|pids| - 1]), last, attached[last])
  }

  function AttachmentsByStartId(attached: Attachments): Index {
    FoldIndex(attached, Ascending(attached.Keys))
  }

  /** `entries` lists, in ascending pid order, exactly those of `pids` attached to `id`. */
  ghost predicate ListsExactly(
    entries: seq<Entry>, attached: Attachments, pids: seq<Pid>, id: StartIdentifier)
    requires forall p :: p in pids ==> p in attached
  {
    && (forall i, j :: 0 <= i < j < |entries| ==> entries[i].pid < entries[j].pid)
    && (forall e :: e in entries ==>
          e.pid in pids && attached[e.pid].startId == id && attached[e.pid].expiration == e.expiration)
    && (forall p :: p in pids && attached[p].startId == id ==> Entry(p, attached[p].expiration) in entries)
  }

  lemma {:induction false} FoldIndexKeys(attached: Attachments, pids: seq<Pid>, id: StartIdentifier)
    requires forall p :: p in pids ==> p in attached
    ensures id in FoldIndex(attached, pids) <==> exists p :: p in pids && attached[p].startId == id
  {
    if pids != [] {
      var init, last := pids[..|pids| - 1], pids[|pids| - 1];
      FoldIndexKeys(attached, init, id);
      assert forall p :: p in pids <==> p in init || p == last by {
        assert pids == init + [last];
      }
    }
  }

  lemma {:induction false} FoldIndexLists(attached: Attachments, pids: seq<Pid>, id: StartIdentifier)
    requires forall p :: p in pids ==> p in attached
    requires forall i, j :: 0 <= i < j < |pids| ==> pids[i] < pids[j]
    requires id in FoldIndex(attached, pids)
    ensures ListsExactly(FoldIndex(attached, pids)[id], attached, pids, id)
  {
    var init, last := pids[..|pids| - 1], pids[|pids| - 1];
    var index := FoldIndex(attached, init);
    assert pids == init + [last] && last in pids;
    if id in index { FoldIndexLists(attached, init, id); } else { FoldIndexKeys(attached, init, id); }
    if attached[last].startId == id {
      AppendLists(attached, init, last, id, if id in index then index[id] else []);
    }
  }

  /** Pushing the entry of a larger pid keeps a listing exact. */
  lemma AppendLists(
    attached: Attachments, init: seq<Pid>, last: Pid, id: StartIdentifier, before: seq<Entry>)
    requires last in attached && forall p :: p in init ==> p in attached && p < last
    requires ListsExactly(before, attached, init, id) && attached[last].startId == id
    ensures ListsExactly(before + [Entry(last, attached[last].expiration)], attached, init + [last], id)
  {
    var entries := before + [Entry(last, attached[last].expiration)];
    forall i, j | 0 <= i < j < |entries| ensures entries[i].pid < entries[j].pid {
      assert entries[i] in before;
    }
    forall p | p in init + [last] && attached[p].startId == id
      ensures Entry(p, attached[p].expiration) in entries
    {
      if p != last { assert Entry(p, attached[p].expiration) in before; }
      else { assert entries[|before|] == Entry(p, attached[p].expiration); }
    }
  }

  /** The folded index and the direct scan agree, and every entry of the index is complete. */
  lemma IndexAgreesWithScan(attached: Attachments, id: StartIdentifier)
    ensures id in AttachmentsByStartId(attached) <==> Referenced(attached, id)
    ensures id in AttachmentsByStartId(attached) ==>
              ListsExactly(AttachmentsByStartId(attached)[id], attached, Ascending(attached.Keys), id)
  {
    var pids := Ascending(attached.Keys);
    FoldIndexKeys(attached, pids, id);
    if id in AttachmentsByStartId(attached) { FoldIndexLists(attached, pids, id); }
  }

  // ---------------------------------------------------------------------------
  // Operations on values
  // ---------------------------------------------------------------------------

  function StartOrAttach(s: State, pid: Pid, storePath: Path, now: Time, live: set<Pid>)
    : (State, StartOrAttachResult)
  {
    if s.ready.Starting? && s.ready.pid in live then
      (s, AlreadyStarting(s.ready.pid, s.ready.startId))
    else if s.ready.IsReady? && s.ready.startId.storePath == storePath then
      var id := s.ready.startId;
      (s.(attached := s.attached[pid := Attachment(id, None)]), Attach(id))
    else
      var id := StartIdentifier(storePath, now);
      (s.(ready := Starting(pid, id), attached := s.attached[pid := Attachment(id, None)]), Start(id))
  }

  /** `ready` survives a detach unless it names a start that nothing references any more. */
  function ReadyAfterDetach(ready: Ready, remaining: Attachments): Ready {
    if remaining != map[] && ready.IsReady? && !Referenced(remaining, ready.startId)
    then NotReady
    else ready
  }

  function Detach(s: State, pid: Pid): (State, Option<StartIdentifier>)
    requires pid in s.attached
  {
    var id := s.attached[pid].startId;
    var remaining := s.attached - {pid};
    (s.(attached := remaining, ready := ReadyAfterDetach(s.ready, remaining)),
     if Referenced(remaining, id) then None else Some(id))
  }

  /** An attachment outlives a cleanup while its process runs or its expiration lies ahead. */
  predicate Kept(a: Attachment, pid: Pid, live: set<Pid>, now: Time) {
    pid in live || (a.expiration.Some? && now < a.expiration.value)
  }

  function CleanupPid(s: State, pid: Pid, live: set<Pid>, now: Time)
    : (State, Option<StartIdentifier>)
  {
    if pid in s.attached && !Kept(s.attached[pid], pid, live, now) then Detach(s, pid)
    else (s, None)
  }

  /**
   A cleanup keeps an attached process exactly while it runs or its expiration lies ahead, and
   keeps everybody else as they are.
   */
  lemma CleanupKeepsIff(s: State, pid: Pid, live: set<Pid>, now: Time)
    ensures var after := CleanupPid(s, pid, live, now).0.attached;
            && (pid in s.attached ==>
                  (pid in after
                   <==> pid in live || (s.attached[pid].expiration.Some? && now < s.attached[pid].expiration.value)))
            && (forall q :: q in after ==> q in s.attached && after[q] == s.attached[q])
            && (forall q :: q in s.attached && q != pid ==> q in after)
  {
  }

  predicate CanReplace(s: State, id: StartIdentifier, oldPid: Pid) {
    oldPid in s.attached && s.attached[oldPid].startId == id
  }

  function Replace(s: State, id: StartIdentifier, oldPid: Pid, newPid: Pid, expiration: Option<Time>)
    : State
    requires CanReplace(s, id, oldPid)
  {
    s.(attached := (s.attached - {oldPid})[newPid := Attachment(id, expiration)])
  }

  // ---------------------------------------------------------------------------
  // Ready is backed
  // ---------------------------------------------------------------------------

  /** While anything is attached, a ready start is one that some attachment references. */
  ghost predicate ReadyIsBacked(s: State) {
    s.attached != map[] && s.ready.IsReady? ==> Referenced(s.attached, s.ready.startId)
  }

  lemma StartOrAttachKeepsReadyBacked(s: State, pid: Pid, storePath: Path, now: Time, live: set<Pid>)
    requires ReadyIsBacked(s)
    ensures ReadyIsBacked(StartOrAttach(s, pid, storePath, now, live).0)
  {
    var (s', r) := StartOrAttach(s, pid, storePath, now, live);
    if r.Attach? {
      assert pid in s'.attached && s'.attached[pid].startId == s'.ready.startId;
    }
  }

  /** Detaching re-establishes backing even where it did not hold before. */
  lemma DetachBacksReady(s: State, pid: Pid)
    requires pid in s.attached
    ensures ReadyIsBacked(Detach(s, pid).0)
  {
  }

  /**
   The one way a replacement can leave `ready` pointing at nothing: `newPid` held the
   ready start alone, and is re-attached to another start.
   */
  predicate DropsReadyHolder(s: State, id: StartIdentifier, oldPid: Pid, newPid: Pid) {
    && s.ready.IsReady?
    && id != s.ready.startId
    && newPid in s.attached
    && s.attached[newPid].startId == s.ready.startId
    && forall p :: p in s.attached && s.attached[p].startId == s.ready.startId ==> p == newPid
  }

  /** A successful replacement keeps `ready` backed exactly when it does not drop its only holder. */
  lemma ReplaceKeepsReadyBackedIff(
    s: State, id: StartIdentifier, oldPid: Pid, newPid: Pid, expiration: Option<Time>)
    requires ReadyIsBacked(s) && CanReplace(s, id, oldPid)
    ensures ReadyIsBacked(Replace(s, id, oldPid, newPid, expiration))
            <==> !DropsReadyHolder(s, id, oldPid, newPid)
  {
    var s' := Replace(s, id, oldPid, newPid, expiration);
    assert newPid in s'.attached && s'.attached[newPid].startId == id;
    if s.ready.IsReady? && id != s.ready.startId {
      var ready := s.ready.startId;
      assert oldPid in s.attached;
      if !DropsReadyHolder(s, id, oldPid, newPid) {
        var holder :| holder in s.attached && s.attached[holder].startId == ready;
        var other :| other in s.attached && s.attached[other].startId == ready && other != newPid;
        assert other in s'.attached && s'.attached[other].startId == ready;
      } else {
        forall p | p in s'.attached ensures s'.attached[p].startId != ready {
          if p != newPid { assert p in s.attached; }
        }
      }
    }
  }
}
