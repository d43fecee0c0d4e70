/**
 Whole runs of the telemetry pipeline: events are recorded and batches are sent, in any
 interleaving, over a network that may lose a batch or lose its acknowledgement.

 A process may crash between any two steps.  A crash after the receiver got a batch and
 before the file was rewritten is an `Unacknowledged` send.
 */
module EventDelivery {
  import opened EventsBuffer

  /** How an event left the file: acknowledged with the given attempt, or pushed out by the cap. */
  datatype Fate = Delivered(attempt: nat) | Evicted

  /**
   `file` and `log` are what the program and the network hold.  The rest is history:
   everything ever recorded, the fate of each event that left the file, and the position
   in the history where each attempt's batch starts.
   */
  datatype Pipeline = Pipeline(
    file: seq<Event>, log: seq<Attempt>,
    recorded: seq<Event>, fates: seq<Fate>, starts: seq<nat>)

  datatype Step = Record(event: Event) | SendBatch

  const INITIAL := Pipeline([], [], [], [], [])

  function AfterRecord(p: Pipeline, e: Event): Pipeline {
    var file := Pushed(p.file, e);
    p.(file := file, recorded := p.recorded + [e],
       fates := p.fates + seq(|p.file| + 1 - |file|, _ => Evicted))
  }

  function AfterSend(p: Pipeline, network: Network): Pipeline
    requires p.file != []
  {
    var n := BatchSize(p.file);
    var attempt := Attempt(p.file[..n], network(|p.log|));
    var sent := p.(log := p.log + [attempt], starts := p.starts + [|p.fates|]);
    if attempt.outcome.Acknowledged?
    then sent.(file := p.file[n..], fates := p.fates + seq(n, _ => Delivered(|p.log|)))
    else sent
  }

  /** The loop of `flush` sends nothing once the file is empty. */
  function Next(p: Pipeline, step: Step, network: Network): Pipeline {
    match step
    case Record(e) => AfterRecord(p, e)
    case SendBatch => if p.file == [] then p else AfterSend(p, network)
  }

  function Run(p: Pipeline, steps: seq<Step>, network: Network): Pipeline
    decreases |steps|
  {
    if steps == [] then p else Run(Next(p, steps[0], network), steps[1..], network)
  }

  // ---------------------------------------------------------------------------
  // The invariant
  // ---------------------------------------------------------------------------

  predicate Received(a: Attempt) {
    !a.outcome.Lost?
  }

  /** The position in the history just behind the batch of attempt `j`. */
  function End(p: Pipeline, j: nat): nat
    requires |p.starts| == |p.log| && j < |p.log|
  {
    p.starts[j] + |p.log[j].batch|
  }

  /** The file is what is left of the history once everything with a fate is taken off. */
  ghost predicate FileIsSuffix(p: Pipeline) {
    && |p.file| < MAX_BUFFER_SIZE
    && |p.fates| + |p.file| == |p.recorded|
    && p.file == p.recorded[|p.fates|..]
  }

  /** Every batch is a stretch of the history, not beyond what a batch sent now would cover. */
  ghost predicate BatchesAreStretches(p: Pipeline) {
    && |p.starts| == |p.log|
    && (forall j :: 0 <= j < |p.log| ==>
          && 0 < |p.log[j].batch| <= BATCH_SIZE
          && End(p, j) <= |p.recorded|
          && p.log[j].batch == p.recorded[p.starts[j]..End(p, j)])
    && (forall j :: 0 <= j < |p.log| ==>
          && p.starts[j] <= |p.fates|
          && End(p, j) <= |p.fates| + BatchSize(p.file))
    && (forall i, j :: 0 <= i < j < |p.log| ==> p.starts[i] <= p.starts[j] && End(p, i) <= End(p, j))
  }

  /** A delivered event is in the batch of the attempt that delivered it; an evicted one had 999 behind it. */
  ghost predicate FatesAreTrue(p: Pipeline)
    requires |p.starts| == |p.log|
  {
    forall i :: 0 <= i < |p.fates| ==>
      match p.fates[i]
      case Delivered(j) => j < |p.log| && p.log[j].outcome.Acknowledged? && p.starts[j] <= i < End(p, j)
      case Evicted => i + MAX_BUFFER_SIZE <= |p.recorded|
  }

  /** Whatever precedes a batch was delivered by an earlier attempt, or evicted. */
  ghost predicate InOrder(p: Pipeline)
    requires |p.starts| == |p.log|
  {
    forall j, i :: 0 <= j < |p.log| && 0 <= i < p.starts[j] && i < |p.fates| ==>
      p.fates[i].Evicted? || p.fates[i].attempt < j
  }

  /** An acknowledged batch has left the file, and every later batch starts behind it. */
  ghost predicate NeverResent(p: Pipeline)
    requires |p.starts| == |p.log|
  {
    && (forall i :: 0 <= i < |p.log| && p.log[i].outcome.Acknowledged? ==> End(p, i) <= |p.fates|)
    && (forall i, j :: 0 <= i < j < |p.log| && p.log[i].outcome.Acknowledged? ==> End(p, i) <= p.starts[j])
  }

  ghost predicate Inv(p: Pipeline) {
    FileIsSuffix(p) && BatchesAreStretches(p) && FatesAreTrue(p) && InOrder(p) && NeverResent(p)
  }

  lemma RecordKeepsSuffix(p: Pipeline, e: Event)
    requires FileIsSuffix(p)
    ensures FileIsSuffix(AfterRecord(p, e))
    ensures var p' := AfterRecord(p, e);
            |p.fates| <= |p'.fates| && |p.fates| + BatchSize(p.file) <= |p'.fates| + BatchSize(p'.file)
  {
    var p' := AfterRecord(p, e);
    assert p'.recorded[|p.fates|..] == p.file + [e];
    assert p'.recorded[|p'.fates|..] == p'.file;
  }

  lemma RecordKeepsStretches(p: Pipeline, e: Event)
    requires FileIsSuffix(p) && BatchesAreStretches(p)
    ensures BatchesAreStretches(AfterRecord(p, e))
  {
    var p' := AfterRecord(p, e);
    RecordKeepsSuffix(p, e);
    forall j | 0 <= j < |p'.log|
      ensures && End(p', j) <= |p'.recorded| && p'.log[j].batch == p'.recorded[p'.starts[j]..End(p', j)]
    {
      assert p.log[j].batch == p.recorded[p.starts[j]..End(p, j)];
    }
  }

  lemma RecordKeepsInv(p: Pipeline, e: Event)
    requires Inv(p)
    ensures Inv(AfterRecord(p, e))
  {
    RecordKeepsSuffix(p, e);
    RecordKeepsStretches(p, e);
  }

  lemma AttemptKeepsStretches(p: Pipeline, network: Network)
    requires Inv(p) && p.file != []
    ensures BatchesAreStretches(AfterSend(p, network))
  {
    var p' := AfterSend(p, network);
    var n := BatchSize(p.file);
    forall j | 0 <= j < |p'.log|
      ensures && 0 < |p'.log[j].batch| <= BATCH_SIZE
              && End(p', j) <= |p'.recorded|
              && p'.log[j].batch == p'.recorded[p'.starts[j]..End(p', j)]
              && p'.starts[j] <= |p'.fates|
              && End(p', j) <= |p.fates| + n
    {
      if j < |p.log| {
        assert p'.log[j] == p.log[j] && End(p', j) == End(p, j);
      } else {
        assert p'.log[j].batch == p.file[..n];
      }
    }
  }

  lemma SendNeverResends(p: Pipeline, network: Network)
    requires Inv(p) && p.file != []
    ensures NeverResent(AfterSend(p, network))
  {
    var p' := AfterSend(p, network);
    forall i | 0 <= i < |p'.log| && p'.log[i].outcome.Acknowledged? ensures End(p', i) <= |p'.fates| {
      if i < |p.log| { assert p'.log[i] == p.log[i] && End(p', i) == End(p, i); }
    }
    forall i, j | 0 <= i < j < |p'.log| && p'.log[i].outcome.Acknowledged?
      ensures End(p', i) <= p'.starts[j]
    {
      assert p'.log[i] == p.log[i] && End(p', i) == End(p, i);
    }
  }

  lemma SendKeepsInv(p: Pipeline, network: Network)
    requires Inv(p) && p.file != []
    ensures Inv(AfterSend(p, network))
  {
    var p' := AfterSend(p, network);
    var n := BatchSize(p.file);
    AttemptKeepsStretches(p, network);
    SendNeverResends(p, network);
    assert p'.file == p'.recorded[|p'.fates|..];
    forall i | 0 <= i < |p'.fates|
      ensures match p'.fates[i]
              case Delivered(j) => j < |p'.log| && p'.log[j].outcome.Acknowledged? && p'.starts[j] <= i < End(p', j)
              case Evicted => i + MAX_BUFFER_SIZE <= |p'.recorded|
    {
      if i < |p.fates| {
        assert p'.fates[i] == p.fates[i];
        if p.fates[i].Delivered? { assert End(p', p.fates[i].attempt) == End(p, p.fates[i].attempt); }
      }
    }
    forall j, i | 0 <= j < |p'.log| && 0 <= i < p'.starts[j] && i < |p'.fates|
      ensures p'.fates[i].Evicted? || p'.fates[i].attempt < j
    {
      assert i < |p.fates| && p'.fates[i] == p.fates[i];
    }
  }

  lemma {:induction false} RunKeepsInv(p: Pipeline, steps: seq<Step>, network: Network)
    requires Inv(p)
    ensures Inv(Run(p, steps, network))
    decreases |steps|
  {
    if steps != [] {
      match steps[0]
      case Record(e) =>
        RecordKeepsInv(p, e);
        RunKeepsInv(Next(p, steps[0], network), steps[1..], network);
      case SendBatch =>
        if p.file != [] { SendKeepsInv(p, network); }
        RunKeepsInv(Next(p, steps[0], network), steps[1..], network);
    }
  }

  // ---------------------------------------------------------------------------
  // Main results
  // ---------------------------------------------------------------------------

  /** The events of a run, in the order they were recorded. */
  function Events(steps: seq<Step>): seq<Event> {
    if steps == [] then []
    else (if steps[0].Record? then [steps[0].event] else []) + Events(steps[1..])
  }

  lemma {:induction false} RecordedEvents(p: Pipeline, steps: seq<Step>, network: Network)
    ensures Run(p, steps, network).recorded == p.recorded + Events(steps)
    decreases |steps|
  {
    if steps != [] {
      var p1 := Next(p, steps[0], network);
      var first := if steps[0].Record? then [steps[0].event] else [];
      RecordedEvents(p1, steps[1..], network);
      assert Run(p, steps, network) == Run(p1, steps[1..], network);
      assert p1.recorded == p.recorded + first;
      assert p.recorded + first + Events(steps[1..]) == p.recorded + (first + Events(steps[1..]));
    }
  }

  /** The receiver has got the event recorded at position `i`. */
  ghost predicate Got(p: Pipeline, i: nat)
    requires i < |p.recorded|
  {
    exists j :: 0 <= j < |p.log| && Received(p.log[j]) && p.recorded[i] in p.log[j].batch
  }

  lemma EmptyInv(p: Pipeline)
    requires p.file == [] && p.log == [] && p.recorded == [] && p.fates == [] && p.starts == []
    ensures Inv(p)
  {
  }

  lemma AllRecorded(steps: seq<Step>, network: Network)
    ensures Run(INITIAL, steps, network).recorded == Events(steps)
  {
    RecordedEvents(INITIAL, steps, network);
    assert [] + Events(steps) == Events(steps);
  }

  lemma ReachedInv(steps: seq<Step>, network: Network, p: Pipeline)
    requires p == Run(INITIAL, steps, network)
    ensures Inv(p) && p.recorded == Events(steps)
  {
    EmptyInv(INITIAL);
    RunKeepsInv(INITIAL, steps, network);
    AllRecorded(steps, network);
  }

  lemma DeliveredGot(p: Pipeline, i: nat)
    requires Inv(p) && i < |p.fates| && p.fates[i].Delivered?
    ensures p.fates[i].attempt < |p.log| && Received(p.log[p.fates[i].attempt])
    ensures p.recorded[i] in p.log[p.fates[i].attempt].batch
    ensures Got(p, i)
  {
    var j := p.fates[i].attempt;
    assert p.log[j].batch == p.recorded[p.starts[j]..End(p, j)];
    assert p.log[j].batch[i - p.starts[j]] == p.recorded[i];
  }

  /**
   Conservation.  After any run, over any network, the file holds fewer than 1000 events
   and is the tail of everything recorded; every event before that tail was received at
   least once, or was pushed out when 999 newer ones had been recorded.
   */
  lemma {:induction false} EventConservation(steps: seq<Step>, network: Network, p: Pipeline)
    requires p == Run(INITIAL, steps, network)
    ensures p.recorded == Events(steps)
    ensures |p.file| < 1000 && |p.file| <= |p.recorded|
    ensures p.file == p.recorded[|p.recorded| - |p.file|..]
    ensures |p.fates| == |p.recorded| - |p.file|
    ensures forall i :: 0 <= i < |p.fates| ==>
              Got(p, i) || (p.fates[i].Evicted? && i + 1000 <= |p.recorded|)
  {
    ReachedInv(steps, network, p);
    forall i | 0 <= i < |p.fates|
      ensures Got(p, i) || (p.fates[i].Evicted? && i + MAX_BUFFER_SIZE <= |p.recorded|)
    {
      if p.fates[i].Delivered? { DeliveredGot(p, i); }
    }
  }

  /**
   Order.  Every attempt carries a stretch of the history, and both ends of the stretches
   only move forward.  An event ahead of a batch was acknowledged in an earlier attempt or
   evicted: the receiver never sees an event before one that is still to come.  A batch that
   was acknowledged lies wholly ahead of every later one, so only a send without an
   acknowledgement can make the receiver see an event twice.
   */
  lemma {:induction false} DeliveryInOrder(steps: seq<Step>, network: Network, p: Pipeline, j: nat)
    requires p == Run(INITIAL, steps, network) && j < |p.log|
    ensures |p.starts| == |p.log| && p.starts[j] <= |p.fates| && End(p, j) <= |p.recorded|
    ensures p.log[j].batch == p.recorded[p.starts[j]..End(p, j)]
    ensures forall i :: 0 <= i < j ==> p.starts[i] <= p.starts[j] && End(p, i) <= End(p, j)
    ensures forall i :: 0 <= i < j && p.log[i].outcome.Acknowledged? ==> End(p, i) <= p.starts[j]
    ensures forall i :: 0 <= i < p.starts[j] ==>
              p.fates[i].Evicted? || GotBefore(p, i, j)
  {
    ReachedInv(steps, network, p);
    forall i | 0 <= i < p.starts[j] && p.fates[i].Delivered? ensures GotBefore(p, i, j) {
      DeliveredGot(p, i);
    }
  }

  /** The receiver got the event at position `i` in an attempt before the `j`-th. */
  ghost predicate GotBefore(p: Pipeline, i: nat, j: nat)
    requires i < |p.recorded| && j < |p.log|
  {
    exists k :: 0 <= k < j && Received(p.log[k]) && p.recorded[i] in p.log[k].batch
  }

  /** A whole flush is its sends, one after the other: as many steps as attempts. */
  lemma {:induction false} FlushIsSends(p: Pipeline, network: Network)
    ensures var sends := seq(|Attempts(p.file, network, |p.log|)|, _ => SendBatch);
            var p' := Run(p, sends, network);
            && p'.file == Unsent(p.file, network, |p.log|)
            && p'.log == p.log + Attempts(p.file, network, |p.log|)
            && p'.recorded == p.recorded
    decreases |p.file|
  {
    var attempts := Attempts(p.file, network, |p.log|);
    var sends := seq(|attempts|, _ => SendBatch);
    if p.file != [] {
      var p1 := AfterSend(p, network);
      assert sends[0] == SendBatch && Next(p, sends[0], network) == p1;
      AttemptsUnfold(p.log, p.file, network, |p.log|);
      if network(|p.log|).Acknowledged? {
        FlushIsSends(p1, network);
        assert sends[1..] == seq(|Attempts(p1.file, network, |p1.log|)|, _ => SendBatch);
      } else {
        assert attempts == [Attempt(p.file[..BatchSize(p.file)], network(|p.log|))];
        assert sends[1..] == [];
      }
    }
  }
}
