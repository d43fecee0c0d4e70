/**
 Cleaning up every attached pid once, in some order, with liveness and time fixed.

 The executive learns of exits one by one and in no particular order, so what a sweep
 leaves behind should not depend on that order.
 */
module CleanupSweep {
  import opened Options
  import opened Activation

  /** The state after cleaning up `pids` in turn, and the starts handed back for removal. */
  datatype Swept = Swept(state: State, emptied: seq<StartIdentifier>)

  function Sweep(s: State, pids: seq<Pid>, live: set<Pid>, now: Time): Swept
    decreases |pids|
  {
    if pids == [] then Swept(s, []) else
      var (s', emptied) := CleanupPid(s, pids[0], live, now);
      var rest := Sweep(s', pids[1..], live, now);
      Swept(rest.state, (if emptied.Some? then [emptied.value] else []) + rest.emptied)
  }

  /** `pids` visits every attached pid exactly once. */
  ghost predicate Enumerates(pids: seq<Pid>, attached: Attachments) {
    Distinct(pids) && forall p :: p in pids <==> p in attached
  }

  // ---------------------------------------------------------------------------
  // What a sweep amounts to, said without reference to any order
  // ---------------------------------------------------------------------------

  function Survivors(attached: Attachments, live: set<Pid>, now: Time): Attachments {
    map p | p in attached && Kept(attached[p], p, live, now) :: attached[p]
  }

  /** Attached pids that have not been visited yet, or survive. */
  function Pending(attached: Attachments, pids: seq<Pid>, live: set<Pid>, now: Time): Attachments {
    map p | p in attached && (p !in pids || Kept(attached[p], p, live, now)) :: attached[p]
  }

  /** `id` was referenced before the sweep, and is not afterwards. */
  predicate LostAll(before: Attachments, after: Attachments, id: StartIdentifier) {
    Referenced(before, id) && !Referenced(after, id)
  }

  // ---------------------------------------------------------------------------
  // The attachments left, and the starts handed back
  // ---------------------------------------------------------------------------

  lemma {:induction false} SweepLeavesPending(s: State, pids: seq<Pid>, live: set<Pid>, now: Time)
    ensures Sweep(s, pids, live, now).state.attached == Pending(s.attached, pids, live, now)
    ensures Sweep(s, pids, live, now).state.executivePid == s.executivePid
    decreases |pids|
  {
    if pids != [] {
      var s' := CleanupPid(s, pids[0], live, now).0;
      SweepLeavesPending(s', pids[1..], live, now);
      var left := Pending(s'.attached, pids[1..], live, now);
      forall p | p in s.attached
        ensures p in left <==> p in Pending(s.attached, pids, live, now)
      {
        assert p in pids <==> p == pids[0] || p in pids[1..];
      }
    }
  }

  /** A start is handed back exactly once if it lost all its references, and otherwise never. */
  lemma {:induction false} SweepEmptied(s: State, pids: seq<Pid>, live: set<Pid>, now: Time)
    ensures var r := Sweep(s, pids, live, now);
            && (forall id :: id in r.emptied <==> LostAll(s.attached, r.state.attached, id))
            && (forall i, j :: 0 <= i < j < |r.emptied| ==> r.emptied[i] != r.emptied[j])
    decreases |pids|
  {
    if pids != [] {
      var (s', head) := CleanupPid(s, pids[0], live, now);
      var rest := Sweep(s', pids[1..], live, now);
      SweepEmptied(s', pids[1..], live, now);
      SweepLeavesPending(s', pids[1..], live, now);
      var r := Sweep(s, pids, live, now);
      forall id
        ensures id in r.emptied <==> LostAll(s.attached, r.state.attached, id)
      {
        CleanupLosesOnly(s, pids[0], live, now, id);
        ReferencesShrink(rest.state.attached, s'.attached, id);
        assert id in r.emptied <==> head == Some(id) || id in rest.emptied;
      }
      if head.Some? {
        CleanupLosesOnly(s, pids[0], live, now, head.value);
        assert head.value !in rest.emptied;
      }
    }
  }

  lemma CleanupLosesOnly(s: State, pid: Pid, live: set<Pid>, now: Time, id: StartIdentifier)
    ensures var (s', emptied) := CleanupPid(s, pid, live, now);
            && (emptied == Some(id) <==> LostAll(s.attached, s'.attached, id))
            && (Referenced(s'.attached, id) ==> Referenced(s.attached, id))
  {
    var (s', emptied) := CleanupPid(s, pid, live, now);
    ReferencesShrink(s'.attached, s.attached, id);
    if LostAll(s.attached, s'.attached, id) {
      var p :| p in s.attached && s.attached[p].startId == id;
      assert p == pid;
    }
  }

  lemma ReferencesShrink(small: Attachments, large: Attachments, id: StartIdentifier)
    requires forall p :: p in small ==> p in large && small[p] == large[p]
    ensures Referenced(small, id) ==> Referenced(large, id)
  {
    if Referenced(small, id) {
      var p :| p in small && small[p].startId == id;
      assert p in large;
    }
  }

  // ---------------------------------------------------------------------------
  // The ready field
  // ---------------------------------------------------------------------------

  /** The ready field after a sweep that leaves somebody attached. */
  function SweptReady(s: State, after: Attachments): Ready {
    if after != s.attached && s.ready.IsReady? && !Referenced(after, s.ready.startId)
    then NotReady
    else s.ready
  }

  lemma {:induction false} SweepReady(s: State, pids: seq<Pid>, live: set<Pid>, now: Time)
    requires Pending(s.attached, pids, live, now) != map[]
    ensures Sweep(s, pids, live, now).state.ready
            == SweptReady(s, Pending(s.attached, pids, live, now))
    decreases |pids|
  {
    var after := Pending(s.attached, pids, live, now);
    if pids == [] {
      assert after == s.attached;
    } else {
      var s' := CleanupPid(s, pids[0], live, now).0;
      var rest := pids[1..];
      SweepLeavesPending(s, pids, live, now);
      SweepLeavesPending(s', rest, live, now);
      assert Pending(s'.attached, rest, live, now) == after;
      SweepReady(s', rest, live, now);
      assert s'.attached == map[] ==> after == map[];
      if s'.attached != s.attached {
        assert pids[0] in s.attached && pids[0] !in s'.attached && pids[0] !in after;
        if s.ready.IsReady? { ReferencesShrink(after, s'.attached, s.ready.startId); }
      }
    }
  }

  /**
   The sweep is confluent.  Whatever the order, it leaves exactly the pids that run or
   whose expiration lies ahead, and hands back, once each, exactly the starts that lost
   all their references.  If anybody stays attached, `ready` comes out the same too.
   */
  lemma SweepIsConfluent(s: State, pids: seq<Pid>, live: set<Pid>, now: Time)
    requires Enumerates(pids, s.attached)
    ensures var r := Sweep(s, pids, live, now);
            var survivors := Survivors(s.attached, live, now);
            && r.state.attached == survivors
            && (forall p :: p in survivors
                            <==> && p in s.attached
                                 && (|| p in live
                                     || (s.attached[p].expiration.Some? && now < s.attached[p].expiration.value)))
            && (forall p :: p in survivors ==> survivors[p] == s.attached[p])
            && (forall id :: id in r.emptied <==> LostAll(s.attached, survivors, id))
            && (forall i, j :: 0 <= i < j < |r.emptied| ==> r.emptied[i] != r.emptied[j])
            && (survivors != map[] ==> r.state.ready == SweptReady(s, survivors))
  {
    SweepLeavesPending(s, pids, live, now);
    SweepEmptied(s, pids, live, now);
    assert Pending(s.attached, pids, live, now) == Survivors(s.attached, live, now);
    if Survivors(s.attached, live, now) != map[] {
      SweepReady(s, pids, live, now);
    }
  }

  // ---------------------------------------------------------------------------
  // Exactly when `ready` depends on the order
  // ---------------------------------------------------------------------------

  ghost predicate ReadyIndependentOfOrder(s: State, live: set<Pid>, now: Time) {
    forall a, b | Enumerates(a, s.attached) && Enumerates(b, s.attached) ::
      Sweep(s, a, live, now).state.ready == Sweep(s, b, live, now).state.ready
  }

  predicate References(attached: Attachments, p: Pid, id: StartIdentifier) {
    p in attached && attached[p].startId == id
  }

  /** Nobody survives, and both the ready start and some other start are referenced. */
  ghost predicate Mixed(s: State, live: set<Pid>, now: Time) {
    && s.ready.IsReady?
    && Survivors(s.attached, live, now) == map[]
    && (exists p :: References(s.attached, p, s.ready.startId))
    && (exists q :: q in s.attached && !References(s.attached, q, s.ready.startId))
  }

  lemma {:induction false} SweepSplits(s: State, a: seq<Pid>, b: seq<Pid>, live: set<Pid>, now: Time)
    ensures Sweep(s, a + b, live, now).state == Sweep(Sweep(s, a, live, now).state, b, live, now).state
    decreases |a|
  {
    if a == [] {
      assert a + b == b;
    } else {
      var s' := CleanupPid(s, a[0], live, now).0;
      assert (a + b)[1..] == a[1..] + b;
      SweepSplits(s', a[1..], b, live, now);
    }
  }

  /** When nobody survives, the last pid visited decides. */
  lemma SweepLastDecides(s: State, init: seq<Pid>, last: Pid, live: set<Pid>, now: Time)
    requires Enumerates(init + [last], s.attached) && Survivors(s.attached, live, now) == map[]
    ensures Sweep(s, init + [last], live, now).state.ready
            == if init == [] || !s.ready.IsReady? || References(s.attached, last, s.ready.startId)
               then s.ready else NotReady
  {
    var pids := init + [last];
    assert last in pids && last !in init by {
      assert pids[|init|] == last;
      assert forall i :: 0 <= i < |init| ==> init[i] == pids[i] != pids[|init|];
    }
    assert forall p :: p in s.attached ==> !Kept(s.attached[p], p, live, now) by {
      assert forall p :: p in s.attached && Kept(s.attached[p], p, live, now)
                         ==> p in Survivors(s.attached, live, now);
    }
    var middle := Sweep(s, init, live, now).state;
    var only := map[last := s.attached[last]];
    assert Pending(s.attached, init, live, now) == only by {
      assert forall p :: p in s.attached ==> p in init || p == last;
    }
    SweepLeavesPending(s, init, live, now);
    assert last in only;
    SweepReady(s, init, live, now);
    SweepSplits(s, init, [last], live, now);
    assert middle.attached - {last} == map[];
    assert Sweep(middle, [last], live, now).state == CleanupPid(middle, last, live, now).0 by {
      assert [last][1..] == [];
    }
    assert init != [] ==> init[0] in s.attached && init[0] !in only by {
      if init != [] { assert init[0] in pids; }
    }
    if s.ready.IsReady? {
      assert Referenced(only, s.ready.startId) <==> References(s.attached, last, s.ready.startId) by {
        if References(s.attached, last, s.ready.startId) { assert last in only; }
      }
    }
    if init == [] { assert only == s.attached; }
  }

  /** Any attached pid can be the last of some enumeration. */
  lemma EnumerationEndingWith(attached: Attachments, last: Pid) returns (init: seq<Pid>)
    requires last in attached
    ensures Enumerates(init + [last], attached)
  {
    init := Ascending(attached.Keys - {last});
    var pids := init + [last];
    forall i, j | 0 <= i < j < |pids| ensures pids[i] != pids[j] {
      if j == |init| { assert pids[i] in init; }
    }
    forall p ensures p in pids <==> p in attached {
      assert p in pids <==> p in init || p == last;
    }
  }

  lemma LastOf(pids: seq<Pid>, s: State, live: set<Pid>, now: Time)
    requires Enumerates(pids, s.attached) && pids != []
    requires Survivors(s.attached, live, now) == map[]
    ensures pids[|pids| - 1] in s.attached
    ensures Sweep(s, pids, live, now).state.ready
            == if |pids| == 1 || !s.ready.IsReady?
                  || References(s.attached, pids[|pids| - 1], s.ready.startId)
               then s.ready else NotReady
  {
    var init, last := pids[..|pids| - 1], pids[|pids| - 1];
    assert init + [last] == pids;
    SweepLastDecides(s, init, last, live, now);
  }

  /** The ready field depends on the order of the sweep exactly in the mixed case. */
  lemma ReadyIndependentIff(s: State, live: set<Pid>, now: Time)
    ensures ReadyIndependentOfOrder(s, live, now) <==> !Mixed(s, live, now)
  {
    if Mixed(s, live, now) {
      var p :| References(s.attached, p, s.ready.startId);
      var q :| q in s.attached && !References(s.attached, q, s.ready.startId);
      var a := EnumerationEndingWith(s.attached, p);
      var b := EnumerationEndingWith(s.attached, q);
      SweepLastDecides(s, a, p, live, now);
      SweepLastDecides(s, b, q, live, now);
      assert p in b + [q] && p != q;
      assert Sweep(s, a + [p], live, now).state.ready != Sweep(s, b + [q], live, now).state.ready;
    } else {
      forall a, b | Enumerates(a, s.attached) && Enumerates(b, s.attached)
        ensures Sweep(s, a, live, now).state.ready == Sweep(s, b, live, now).state.ready
      {
        SameReady(s, a, b, live, now);
      }
    }
  }

  lemma SameReady(s: State, a: seq<Pid>, b: seq<Pid>, live: set<Pid>, now: Time)
    requires !Mixed(s, live, now) && Enumerates(a, s.attached) && Enumerates(b, s.attached)
    ensures Sweep(s, a, live, now).state.ready == Sweep(s, b, live, now).state.ready
  {
    SweepIsConfluent(s, a, live, now);
    SweepIsConfluent(s, b, live, now);
    if Survivors(s.attached, live, now) == map[] {
      SameLength(a, b);
      if a != [] {
        LastOf(a, s, live, now);
        LastOf(b, s, live, now);
        if s.ready.IsReady? && |a| > 1 {
          var id := s.ready.startId;
          assert References(s.attached, a[|a| - 1], id) <==> References(s.attached, b[|b| - 1], id);
        }
      }
    }
  }

  lemma SameLength(a: seq<Pid>, b: seq<Pid>)
    requires Distinct(a) && Distinct(b) && forall p :: p in a <==> p in b
    ensures |a| == |b|
  {
    DistinctCount(a);
    DistinctCount(b);
    assert Elements(a) == Elements(b);
  }
}
