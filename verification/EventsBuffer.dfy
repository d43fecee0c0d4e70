/**
 The telemetry buffer: a bounded queue of events, mirrored in a file, that is flushed in
 batches over a connection whose sends may fail before or after the receiver got them.
 */
module EventsBuffer {
  import opened Options

  const MAX_BUFFER_SIZE := 1000
  const BATCH_SIZE := 100

  datatype Event = Event(id: nat, timestamp: int)

  /** How one send ends: acknowledged, lost on the way, or received without acknowledgement. */
  datatype Outcome = Acknowledged | Lost | Unacknowledged

  /** A batch handed to the connection, and what became of it. */
  datatype Attempt = Attempt(batch: seq<Event>, outcome: Outcome)

  /** The outcome of the n-th send ever made over a connection. */
  type Network = nat -> Outcome

  // ---------------------------------------------------------------------------
  // Operations on values
  // ---------------------------------------------------------------------------

  function Last(events: seq<Event>, n: nat): seq<Event> {
    if |events| <= n then events else events[|events| - n..]
  }

  /** Pushing keeps the newest 999 events. */
  function Pushed(buffer: seq<Event>, e: Event): seq<Event> {
    Last(buffer + [e], MAX_BUFFER_SIZE - 1)
  }

  function BatchSize(buffer: seq<Event>): (n: nat)
    ensures n <= |buffer| && n <= BATCH_SIZE
    ensures buffer != [] ==> n > 0
  {
    if |buffer| < BATCH_SIZE then |buffer| else BATCH_SIZE
  }

  /** The sends a flush makes, the `sent`-th send of the network coming first. */
  function Attempts(buffer: seq<Event>, network: Network, sent: nat): seq<Attempt>
    decreases |buffer|
  {
    if buffer == [] then [] else
      var n := BatchSize(buffer);
      [Attempt(buffer[..n], network(sent))] +
      if network(sent).Acknowledged? then Attempts(buffer[n..], network, sent + 1) else []
  }

  /** What a flush leaves in the buffer. */
  function Unsent(buffer: seq<Event>, network: Network, sent: nat): seq<Event>
    decreases |buffer|
  {
    if buffer == [] || !network(sent).Acknowledged? then buffer
    else Unsent(buffer[BatchSize(buffer)..], network, sent + 1)
  }

  predicate Expired(buffer: seq<Event>, now: int, maxAge: int) {
    buffer != [] && now - buffer[0].timestamp > maxAge
  }

  // ---------------------------------------------------------------------------
  // A flush partitions the buffer
  // ---------------------------------------------------------------------------

  function Batches(attempts: seq<Attempt>): seq<Event> {
    if attempts == [] then [] else attempts[0].batch + Batches(attempts[1..])
  }

  /** The attempts the receiver acknowledged: all of them, or all but the last. */
  function Acknowledgements(attempts: seq<Attempt>): seq<Attempt> {
    if attempts != [] && !attempts[|attempts| - 1].outcome.Acknowledged?
    then attempts[..|attempts| - 1] else attempts
  }

  /** The number of batches in `n` events. */
  function CeilingDivide(n: nat): nat {
    (n + BATCH_SIZE - 1) / BATCH_SIZE
  }

  lemma FirstAttempt(buffer: seq<Event>, network: Network, sent: nat)
    requires buffer != []
    ensures var n := BatchSize(buffer);
            Attempts(buffer, network, sent)
            == [Attempt(buffer[..n], network(sent))] +
               if network(sent).Acknowledged? then Attempts(buffer[n..], network, sent + 1) else []
  {
  }

  /** Every batch is non-empty and holds at most 100 events, and only the last send may fail. */
  lemma {:induction false} FlushBatches(buffer: seq<Event>, network: Network, sent: nat)
    ensures var attempts := Attempts(buffer, network, sent);
            && (forall i :: 0 <= i < |attempts| ==> 0 < |attempts[i].batch| <= 100)
            && (forall i :: 0 <= i < |attempts| - 1 ==> attempts[i].outcome.Acknowledged?)
    decreases |buffer|
  {
    if buffer != [] {
      FirstAttempt(buffer, network, sent);
      FlushBatches(buffer[BatchSize(buffer)..], network, sent + 1);
    }
  }

  lemma BatchesOfFirst(first: Attempt, rest: seq<Attempt>)
    requires first.outcome.Acknowledged?
    ensures Acknowledgements([first] + rest) == [first] + Acknowledgements(rest)
    ensures Batches(Acknowledgements([first] + rest)) == first.batch + Batches(Acknowledgements(rest))
  {
    assert ([first] + Acknowledgements(rest))[1..] == Acknowledgements(rest);
  }

  lemma Regroup(whole: seq<Event>, n: nat, a: seq<Event>, b: seq<Event>)
    requires n <= |whole| && a + b == whole[n..]
    ensures whole[..n] + a + b == whole
  {
    assert whole[..n] + a + b == whole[..n] + (a + b);
  }

  /** What was acknowledged, followed by what remains, is the buffer the flush started with. */
  lemma {:induction false} FlushPartitions(buffer: seq<Event>, network: Network, sent: nat)
    ensures Batches(Acknowledgements(Attempts(buffer, network, sent))) + Unsent(buffer, network, sent)
            == buffer
    decreases |buffer|
  {
    if buffer != [] {
      FirstAttempt(buffer, network, sent);
      var n := BatchSize(buffer);
      if network(sent).Acknowledged? {
        BatchesOfFirst(Attempt(buffer[..n], network(sent)), Attempts(buffer[n..], network, sent + 1));
        FlushPartitions(buffer[n..], network, sent + 1);
        Regroup(buffer, n, Batches(Acknowledgements(Attempts(buffer[n..], network, sent + 1))),
                Unsent(buffer[n..], network, sent + 1));
      } else {
        assert Acknowledgements(Attempts(buffer, network, sent)) == [];
      }
    }
  }

  /** The number of sends a flush gets acknowledged. */
  function Confirmed(buffer: seq<Event>, network: Network, sent: nat): nat
    decreases |buffer|
  {
    if buffer == [] || !network(sent).Acknowledged? then 0
    else 1 + Confirmed(buffer[BatchSize(buffer)..], network, sent + 1)
  }

  lemma {:induction false} ConfirmedAcknowledgements(buffer: seq<Event>, network: Network, sent: nat)
    ensures var attempts := Attempts(buffer, network, sent);
            && |Acknowledgements(attempts)| == Confirmed(buffer, network, sent)
            && (Unsent(buffer, network, sent) == [] <==> Acknowledgements(attempts) == attempts)
    decreases |buffer|
  {
    if buffer != [] && network(sent).Acknowledged? {
      var n := BatchSize(buffer);
      var rest := Attempts(buffer[n..], network, sent + 1);
      ConfirmedAcknowledgements(buffer[n..], network, sent + 1);
      assert Attempts(buffer, network, sent) == [Attempt(buffer[..n], network(sent))] + rest;
    }
  }

  lemma {:induction false} ConfirmedCounts(buffer: seq<Event>, network: Network, sent: nat)
    ensures var k := Confirmed(buffer, network, sent);
            var left := Unsent(buffer, network, sent);
            && (left == [] ==> k == CeilingDivide(|buffer|))
            && (left != [] ==> BATCH_SIZE * k <= |buffer| && left == buffer[BATCH_SIZE * k..])
    decreases |buffer|
  {
    if buffer != [] && network(sent).Acknowledged? {
      var n := BatchSize(buffer);
      var rest := buffer[n..];
      ConfirmedCounts(rest, network, sent + 1);
      var k := Confirmed(rest, network, sent + 1);
      if Unsent(rest, network, sent + 1) != [] {
        assert n == BATCH_SIZE;
        assert rest[BATCH_SIZE * k..] == buffer[BATCH_SIZE * (k + 1)..];
      }
    }
  }

  /**
   The arithmetic of a flush: it ends with an empty buffer after exactly n/100 sends,
   rounded up, all acknowledged; or it fails on send k+1, with exactly the events from
   index 100*k on left over.
   */
  lemma FlushCounts(buffer: seq<Event>, network: Network, sent: nat)
    ensures var attempts := Attempts(buffer, network, sent);
            var k := |Acknowledgements(attempts)|;
            var left := Unsent(buffer, network, sent);
            && (left == [] ==> |attempts| == k == (|buffer| + 99) / 100)
            && (left != [] ==> |attempts| == k + 1 && 100 * k <= |buffer| && left == buffer[100 * k..])
  {
    ConfirmedAcknowledgements(buffer, network, sent);
    ConfirmedCounts(buffer, network, sent);
  }

  // ---------------------------------------------------------------------------
  // The program
  // ---------------------------------------------------------------------------

  /** The backing file, one event per line. */
  class EventsFile {
    var contents: seq<Event>

    constructor (contents: seq<Event>)
      ensures this.contents == contents
    {
      this.contents := contents;
    }
  }

  class Connection {
    const network: Network
    var sent: nat
    var log: seq<Attempt>

    constructor (network: Network)
      ensures this.network == network && sent == 0 && log == []
    {
      this.network := network;
      sent, log := 0, [];
    }

    /** What is sent is at the head of the file: a crash can neither lose it nor resend what precedes it. */
    method Send(batch: seq<Event>, ghost file: EventsFile) returns (r: Result<()>)
      requires batch <= file.contents
      modifies this
      ensures log == old(log) + [Attempt(batch, network(old(sent)))] && sent == old(sent) + 1
      ensures r.Ok? <==> network(old(sent)).Acknowledged?
    {
      var outcome := network(sent);
      log := log + [Attempt(batch, outcome)];
      sent := sent + 1;
      return if outcome.Acknowledged? then Ok(()) else Err;
    }
  }

  class Buffer {
    const storage: EventsFile
    var buffer: seq<Event>

    /** Between operations the file mirrors the buffer. */
    ghost predicate Valid()
      reads this, storage
    {
      storage.contents == buffer
    }

    constructor Read(storage: EventsFile)
      ensures Valid() && this.storage == storage && buffer == storage.contents
    {
      this.storage := storage;
      buffer := storage.contents;
    }

    method DrainSent(count: nat)
      requires count <= |buffer|
      modifies this
      ensures buffer == old(buffer)[count..]
    {
      buffer := buffer[count..];
    }

    /** Truncate the file, then write the buffer to it event by event. */
    method OverwriteFile()
      modifies storage
      ensures Valid()
    {
      storage.contents := [];
      for i := 0 to |buffer|
        invariant storage.contents == buffer[..i]
      {
        storage.contents := storage.contents + [buffer[i]];
      }
    }

    method PopFrontToMaxSize()
      modifies this
      ensures buffer == Last(old(buffer), MAX_BUFFER_SIZE - 1)
    {
      ghost var popped: nat := 0;
      while |buffer| >= MAX_BUFFER_SIZE
        invariant popped <= |old(buffer)| && buffer == old(buffer)[popped..]
        invariant popped > 0 ==> |buffer| >= MAX_BUFFER_SIZE - 1
        decreases |buffer|
      {
        buffer := buffer[1..];
        popped := popped + 1;
      }
    }

    method AppendNewEvent()
      requires buffer != []
      modifies storage
      ensures storage.contents == old(storage.contents) + [buffer[|buffer| - 1]]
    {
      storage.contents := storage.contents + [buffer[|buffer| - 1]];
    }

    method Push(e: Event)
      requires Valid()
      modifies this, storage
      ensures Valid() && buffer == Pushed(old(buffer), e)
    {
      buffer := buffer + [e];
      if |buffer| >= MAX_BUFFER_SIZE {
        PopFrontToMaxSize();
        OverwriteFile();
      } else {
        AppendNewEvent();
      }
    }
  }

  lemma AttemptsUnfold(log: seq<Attempt>, buffer: seq<Event>, network: Network, sent: nat)
    requires buffer != []
    ensures var n := BatchSize(buffer);
            var first := Attempt(buffer[..n], network(sent));
            log + Attempts(buffer, network, sent)
            == log + [first] + if network(sent).Acknowledged? then Attempts(buffer[n..], network, sent + 1)
                               else []
  {
    FirstAttempt(buffer, network, sent);
  }

  /** `record_event` */
  method RecordEvent(file: EventsFile, e: Event)
    modifies file
    ensures file.contents == Pushed(old(file.contents), e)
    ensures var all := old(file.contents) + [e];
            file.contents == if |all| <= 999 then all else all[|all| - 999..]
  {
    var events := new Buffer.Read(file);
    events.Push(e);
  }

  /** `flush`: send batch after batch, each send's success recorded in the file before the next. */
  method Flush(file: EventsFile, connection: Connection, force: bool, now: int, maxAge: int)
    returns (r: Result<()>)
    modifies file, connection
    ensures !force && (old(file.contents) == [] || now - old(file.contents)[0].timestamp <= maxAge) ==>
              r.Ok? && file.contents == old(file.contents) && connection.log == old(connection.log)
    ensures force || (old(file.contents) != [] && now - old(file.contents)[0].timestamp > maxAge) ==>
              && file.contents == Unsent(old(file.contents), connection.network, old(connection.sent))
              && connection.log == old(connection.log)
                   + Attempts(old(file.contents), connection.network, old(connection.sent))
              && (r.Ok? <==> file.contents == [])
  {
    var events := new Buffer.Read(file);
    if !Expired(events.buffer, now, maxAge) && !force {
      return Ok(());
    }
    ghost var network := connection.network;
    while events.buffer != []
      invariant events.storage == file && events.Valid() && fresh(events)
      invariant Unsent(events.buffer, network, connection.sent)
                == Unsent(old(file.contents), network, old(connection.sent))
      invariant connection.log + Attempts(events.buffer, network, connection.sent)
                == old(connection.log) + Attempts(old(file.contents), network, old(connection.sent))
      decreases |events.buffer|
    {
      var n := BatchSize(events.buffer);
      AttemptsUnfold(connection.log, events.buffer, network, connection.sent);
      var sent := connection.Send(events.buffer[..n], file);
      if sent.Err? {
        return Err;
      }
      events.DrainSent(n);
      events.OverwriteFile();
    }
    return Ok(());
  }
}
