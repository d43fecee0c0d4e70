/**
 The once-per-process report that the running executable lies outside the closure.

 Any number of threads step through the report concurrently: a relaxed load of the guard,
 the resolution of the executable's path, and an atomic fetch-and-add that claims the
 guard.  The load may return a stale zero; the fetch-and-add may not.
 */
module OneShotReport {
  import opened Options

  type Thread = nat

  const TWO_32 := 0x1_0000_0000

  /** Where a thread stands: not in the report, past the load, holding a path, or having won. */
  datatype Position = Outside | Loaded | Resolved | Won

  datatype System = System(
    threads: map<Thread, Position>,
    done: nat,                 // the guard, a 32-bit counter
    claims: set<Thread>,       // threads that have performed the fetch-and-add
    reports: seq<Thread>)      // threads that have delivered the verdict, in order

  datatype Step =
    | Load(thread: Thread, seen: nat)
    | ResolveFails(thread: Thread)
    | Resolve(thread: Thread)
    | FetchAdd(thread: Thread)
    | Deliver(thread: Thread)

  function Initial(threads: set<Thread>): System {
    System(map t | t in threads :: Outside, 0, {}, [])
  }

  predicate Enabled(s: System, step: Step) {
    var t := step.thread;
    t in s.threads &&
    match step
    // A stale zero can be seen only by a thread that has not itself raised the guard.
    case Load(_, seen) => s.threads[t].Outside? && (seen == s.done || (seen == 0 && t !in s.claims))
    case ResolveFails(_) => s.threads[t].Loaded?
    case Resolve(_) => s.threads[t].Loaded?
    case FetchAdd(_) => s.threads[t].Resolved?
    case Deliver(_) => s.threads[t].Won?
  }

  function Next(s: System, step: Step): System
    requires Enabled(s, step)
  {
    var t := step.thread;
    match step
    case Load(_, seen) => if seen != 0 then s else s.(threads := s.threads[t := Loaded])
    case ResolveFails(_) => s.(threads := s.threads[t := Outside])
    case Resolve(_) => s.(threads := s.threads[t := Resolved])
    case FetchAdd(_) =>
      s.(threads := s.threads[t := if s.done == 0 then Won else Outside],
         done := (s.done + 1) % TWO_32, claims := s.claims + {t})
    case Deliver(_) => s.(threads := s.threads[t := Outside], reports := s.reports + [t])
  }

  predicate Possible(s: System, steps: seq<Step>)
    decreases |steps|
  {
    steps == [] || (Enabled(s, steps[0]) && Possible(Next(s, steps[0]), steps[1..]))
  }

  function After(s: System, steps: seq<Step>): System
    requires Possible(s, steps)
    decreases |steps|
  {
    if steps == [] then s else After(Next(s, steps[0]), steps[1..])
  }

  // ---------------------------------------------------------------------------
  // The invariant
  // ---------------------------------------------------------------------------

  /** The threads that have won the guard: those still to report, and those that have. */
  ghost function Winners(s: System): set<Thread> {
    (set t | t in s.threads && s.threads[t].Won?) + (set t | t in s.reports)
  }

  ghost predicate Inv(s: System) {
    && s.claims <= s.threads.Keys
    && s.done == |s.claims|
    && (forall t :: t in s.claims ==> s.threads[t].Outside? || s.threads[t].Won?)
    && (forall t :: t in s.threads && s.threads[t].Won? ==> t in s.claims && s.reports == [])
    && (forall t, u :: t in s.threads && u in s.threads && s.threads[t].Won? && s.threads[u].Won? ==> t == u)
    && |s.reports| <= 1
    && (forall t :: t in s.reports ==> t in s.claims)
    && (s.claims == {} ==> s.reports == [])
    && (s.claims != {} ==> s.reports != [] || exists t :: t in s.threads && s.threads[t].Won?)
  }

  lemma FetchAddCounts(s: System, step: Step)
    requires Inv(s) && Enabled(s, step) && step.FetchAdd? && |s.threads.Keys| < TWO_32
    ensures step.thread !in s.claims
    ensures Next(s, step).done == |Next(s, step).claims|
  {
    var claims := s.claims + {step.thread};
    assert claims <= s.threads.Keys;
    SubsetSize(claims, s.threads.Keys);
  }

  lemma FetchAddKeepsInv(s: System, step: Step)
    requires Inv(s) && Enabled(s, step) && step.FetchAdd? && |s.threads.Keys| < TWO_32
    ensures Inv(Next(s, step))
  {
    var t := step.thread;
    var s' := Next(s, step);
    FetchAddCounts(s, step);
    if s.done == 0 {
      assert s.claims == {};
      assert t in s'.threads && s'.threads[t].Won?;
    } else if s.reports == [] {
      var w :| w in s.threads && s.threads[w].Won?;
      assert w in s'.threads && s'.threads[w].Won?;
    }
  }

  lemma OtherStepsKeepInv(s: System, step: Step)
    requires Inv(s) && Enabled(s, step) && !step.FetchAdd?
    ensures Inv(Next(s, step))
  {
    var t := step.thread;
    var s' := Next(s, step);
    if s.claims != {} && s.reports == [] {
      var w :| w in s.threads && s.threads[w].Won?;
      if !step.Deliver? {
        assert w != t || s' == s;
        assert w in s'.threads && s'.threads[w].Won?;
      }
    }
  }

  lemma {:induction false} RunKeepsInv(s: System, steps: seq<Step>)
    requires Inv(s) && |s.threads.Keys| < TWO_32 && Possible(s, steps)
    ensures Inv(After(s, steps)) && After(s, steps).threads.Keys == s.threads.Keys
    decreases |steps|
  {
    if steps != [] {
      if steps[0].FetchAdd? { FetchAddKeepsInv(s, steps[0]); } else { OtherStepsKeepInv(s, steps[0]); }
      assert Next(s, steps[0]).threads.Keys == s.threads.Keys;
      RunKeepsInv(Next(s, steps[0]), steps[1..]);
    }
  }

  // ---------------------------------------------------------------------------
  // Main results
  // ---------------------------------------------------------------------------

  /**
   However the threads interleave, at most one of them delivers the verdict; and once the
   guard is raised exactly one has delivered it or is about to.
   */
  lemma OneReport(threads: set<Thread>, steps: seq<Step>, s: System)
    requires |threads| < TWO_32
    requires Possible(Initial(threads), steps) && s == After(Initial(threads), steps)
    ensures |s.reports| <= 1
    ensures |Winners(s)| == if s.done == 0 then 0 else 1
  {
    var s0 := Initial(threads);
    assert s0.threads.Keys == threads;
    assert Inv(s0);
    RunKeepsInv(s0, steps);
    WinnersCount(s);
  }

  lemma WinnersCount(s: System)
    requires Inv(s)
    ensures |Winners(s)| == if s.done == 0 then 0 else 1
  {
    if s.done == 0 {
      assert s.claims == {};
      assert forall t :: t in s.reports ==> t in s.claims;
      assert Winners(s) == {};
    } else if s.reports != [] {
      assert Winners(s) == {s.reports[0]};
    } else {
      var w :| w in s.threads && s.threads[w].Won?;
      assert Winners(s) == {w};
    }
  }

  // ---------------------------------------------------------------------------
  // The wrap-around of the guard
  // ---------------------------------------------------------------------------

  lemma {:induction false} Concatenated(s: System, a: seq<Step>, b: seq<Step>)
    requires Possible(s, a) && Possible(After(s, a), b)
    ensures Possible(s, a + b) && After(s, a + b) == After(After(s, a), b)
    decreases |a|
  {
    if a == [] {
      assert a + b == b;
    } else {
      assert (a + b)[0] == a[0] && (a + b)[1..] == a[1..] + b;
      Concatenated(Next(s, a[0]), a[1..], b);
    }
  }

  lemma Prefixed(s: System, step: Step, rest: seq<Step>)
    requires Enabled(s, step) && Possible(Next(s, step), rest)
    ensures Possible(s, [step] + rest) && After(s, [step] + rest) == After(Next(s, step), rest)
  {
    assert ([step] + rest)[0] == step && ([step] + rest)[1..] == rest;
  }

  /** One pass of thread `t` through load, resolution and fetch-and-add. */
  function Pass(t: Thread): seq<Step> {
    [Load(t, 0)] + ([Resolve(t)] + ([FetchAdd(t)] + []))
  }

  /** The state after a pass of a thread that loads zero. */
  function Passed(s: System, t: Thread): System {
    s.(threads := s.threads[t := if s.done == 0 then Won else Outside],
       done := (s.done + 1) % TWO_32, claims := s.claims + {t})
  }

  lemma PassTaken(s: System, t: Thread)
    requires t in s.threads && s.threads[t].Outside? && (s.done == 0 || t !in s.claims)
    ensures Possible(s, Pass(t)) && After(s, Pass(t)) == Passed(s, t)
  {
    var s1 := Next(s, Load(t, 0));
    var s2 := Next(s1, Resolve(t));
    Prefixed(s2, FetchAdd(t), []);
    Prefixed(s1, Resolve(t), [FetchAdd(t)] + []);
    Prefixed(s, Load(t, 0), [Resolve(t)] + ([FetchAdd(t)] + []));
    assert Next(s2, FetchAdd(t)).threads == Passed(s, t).threads;
  }

  /** The state once each of `late` has raised the guard. */
  function Raise(s: System, late: set<Thread>): System {
    s.(done := (s.done + |late|) % TWO_32, claims := s.claims + late)
  }

  lemma PassedIsRaise(s: System, late: set<Thread>, t: Thread)
    requires t in late && late <= s.threads.Keys && 0 < s.done && s.done + |late| <= TWO_32
    requires s.threads[t].Outside?
    ensures Passed(s, t).threads == s.threads
    ensures late == {t} ==> Passed(s, t) == Raise(s, late)
    ensures late != {t} ==> Passed(s, t).done == s.done + 1 && Raise(Passed(s, t), late - {t}) == Raise(s, late)
  {
    var others := late - {t};
    assert late == others + {t} && |late| == |others| + 1;
    assert s.claims + {t} + others == s.claims + late;
    assert late != {t} ==> others != {};
  }

  /** Threads that load a stale zero each raise the guard by one, and nothing else. */
  lemma {:induction false} Raised(s: System, late: set<Thread>) returns (steps: seq<Step>)
    requires late != {} && late <= s.threads.Keys && late !! s.claims && 0 < s.done && s.done + |late| <= TWO_32
    requires forall t :: t in late ==> s.threads[t].Outside?
    ensures Possible(s, steps) && After(s, steps) == Raise(s, late)
    decreases late
  {
    var t := Pick(late);
    PassTaken(s, t);
    PassedIsRaise(s, late, t);
    if late == {t} {
      steps := Pass(t);
    } else {
      assert |late - {t}| == |late| - 1;
      var rest := Raised(Passed(s, t), late - {t});
      steps := Pass(t) + rest;
      Concatenated(s, Pass(t), rest);
    }
  }

  lemma {:induction false} SubsetOfSize(s: set<Thread>, n: nat) returns (sub: set<Thread>)
    requires n <= |s|
    ensures sub <= s && |sub| == n
    decreases |s|
  {
    if n == |s| {
      sub := s;
    } else {
      var t := Pick(s);
      sub := SubsetOfSize(s - {t}, n);
    }
  }

  /** A thread outside enters, wins the guard at zero, and delivers. */
  lemma WinsAndDelivers(s: System, t: Thread) returns (steps: seq<Step>)
    requires t in s.threads && s.threads[t].Outside? && s.done == 0
    ensures Possible(s, steps)
    ensures After(s, steps) == s.(done := 1, claims := s.claims + {t}, reports := s.reports + [t])
  {
    PassTaken(s, t);
    var s1 := After(s, Pass(t));
    Prefixed(s1, Deliver(t), []);
    assert Next(s1, Deliver(t)).threads == s.threads;
    steps := Pass(t) + ([Deliver(t)] + []);
    Concatenated(s, Pass(t), [Deliver(t)] + []);
  }

  /** With 2^32 threads the guard wraps to zero, and the thread that reported reports again. */
  lemma SecondReport(threads: set<Thread>) returns (steps: seq<Step>)
    requires |threads| >= TWO_32
    ensures Possible(Initial(threads), steps) && |After(Initial(threads), steps).reports| == 2
  {
    var s0 := Initial(threads);
    var t := Pick(threads);
    var late := SubsetOfSize(threads - {t}, TWO_32 - 1);
    var a := WinsAndDelivers(s0, t);
    var s1 := After(s0, a);
    var b := Raised(s1, late);
    var s2 := After(s1, b);
    Concatenated(s0, a, b);
    var c := WinsAndDelivers(s2, t);
    Concatenated(s0, a + b, c);
    steps := a + b + c;
  }

  /** Over all runs, the verdict is delivered at most once if and only if there are fewer than 2^32 threads. */
  lemma OneReportIff(threads: set<Thread>)
    ensures (forall steps :: Possible(Initial(threads), steps) ==> |After(Initial(threads), steps).reports| <= 1)
            <==> |threads| < TWO_32
  {
    if |threads| < TWO_32 {
      forall steps | Possible(Initial(threads), steps) ensures |After(Initial(threads), steps).reports| <= 1 {
        OneReport(threads, steps, After(Initial(threads), steps));
      }
    } else {
      var steps := SecondReport(threads);
    }
  }

  predicate AllResolutionsFail(steps: seq<Step>) {
    forall i :: 0 <= i < |steps| ==> !steps[i].Resolve?
  }

  /**
   A failed resolution does not use up the guard: as long as none succeeds the guard stays
   down, nothing is reported, and any thread outside may still enter the report.
   */
  lemma {:induction false} FailuresKeepGuard(s: System, steps: seq<Step>)
    requires s.done == 0 && s.reports == [] && s.claims == {} && Possible(s, steps)
    requires forall t :: t in s.threads ==> s.threads[t].Outside? || s.threads[t].Loaded?
    requires AllResolutionsFail(steps)
    ensures var s' := After(s, steps);
            && s'.done == 0 && s'.reports == []
            && forall t :: t in s'.threads && s'.threads[t].Outside? ==>
                 Enabled(s', Load(t, 0)) && Next(s', Load(t, 0)).threads[t].Loaded?
    decreases |steps|
  {
    if steps != [] {
      assert !steps[0].Resolve?;
      FailuresKeepGuard(Next(s, steps[0]), steps[1..]);
    }
  }
}
