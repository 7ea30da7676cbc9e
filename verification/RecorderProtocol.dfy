/** The recorder as a protocol: callers put commands into a bounded queue, one worker takes them out,
    and every persist, flush and shutdown gets a reply. */
module RecorderProtocol {
  import opened Wrappers
  import opened Jsonl
  import opened Numbers
  import opened JsonlLog
  import opened RecorderModel
  import opened Durability
  import opened BatchReadings
  import opened DurabilityRuns

  datatype SendError = ChannelClosed | QueueFull

  /** Commands that want a reply carry the number of their ticket. */
  datatype Command =
    | Buffer(entries: seq<SessionEntry>)
    | Persisting(ticket: nat)
    | Flush(ticket: nat)
    | Shutdown(ticket: nat)

  /** `sentAfter` counts the entries accepted before the command was sent. */
  datatype Ticket = Ticket(sentAfter: nat, isShutdown: bool, reply: Option<bool>)

  /** Running holds the sender; a shutdown takes it, waits for room, sends, and drops it. A shutdown
      given up while waiting drops the sender unsent. */
  datatype SenderState = Running | Sending | Sent | Dropped

  datatype System = System(
    sender: SenderState, queue: seq<Command>, capacity: nat,
    run: Run, events: seq<Event>, stopped: bool,
    accepted: seq<SessionEntry>, tickets: seq<Ticket>)

  datatype Step =
    | BufferMany(entries: seq<SessionEntry>)
    | SendPersist
    | SendFlush
    | TakeRunning
    | SendShutdown
    | AbandonShutdown
    | Work(fault: WriteFault)

  function Start(capacity: nat): System {
    System(Running, [], capacity, InitialRun(), [], false, [], [])
  }

  // ----- the callers -----

  function BufferManyResult(s: System, entries: seq<SessionEntry>): Result<(), SendError> {
    if entries == [] then Ok(())
    else if s.sender != Running || s.stopped then Err(ChannelClosed)
    else if |s.queue| >= s.capacity then Err(QueueFull)
    else Ok(())
  }

  function Enqueue(s: System, command: Command): System {
    s.(queue := s.queue + [command])
  }

  function EnqueueWithTicket(s: System, command: Command, isShutdown: bool): System {
    Enqueue(s, command).(tickets := s.tickets + [Ticket(|s.accepted|, isShutdown, None)])
  }

  predicate HasRoom(s: System) {
    !s.stopped && |s.queue| < s.capacity
  }

  // ----- the worker -----

  function Reply(s: System, ticket: nat, ok: bool): System {
    if ticket < |s.tickets| then s.(tickets := s.tickets[ticket := s.tickets[ticket].(reply := Some(ok))]) else s
  }

  function WorkerEvent(codec: Codec, s: System, event: Event): System {
    s.(run := Advance(codec, s.run, event), events := s.events + [event])
  }

  function Handle(codec: Codec, s: System, command: Command, fault: WriteFault): System {
    match command
    case Buffer(entries) => WorkerEvent(codec, s, BufferEvent(entries))
    case Persisting(ticket) => HandlePersist(codec, s, ticket, fault)
    case Flush(ticket) => HandlePersist(codec, s, ticket, fault)
    case Shutdown(ticket) => HandlePersist(codec, s, ticket, fault).(stopped := true)
  }

  function HandlePersist(codec: Codec, s: System, ticket: nat, fault: WriteFault): System {
    Reply(WorkerEvent(codec, s, PersistEvent(fault)), ticket, PersistSucceeds(s.run.worker, fault))
  }

  function WorkOnce(codec: Codec, s: System, fault: WriteFault): System {
    if s.stopped then s
    else if s.queue != [] then Handle(codec, s.(queue := s.queue[1..]), s.queue[0], fault)
    else if s.sender == Dropped then WorkerEvent(codec, s, PersistEvent(fault)).(stopped := true)
    else s
  }

  function Take(codec: Codec, s: System, step: Step): System {
    match step
    case BufferMany(entries) =>
      if entries != [] && BufferManyResult(s, entries).Ok?
      then Enqueue(s, Buffer(entries)).(accepted := s.accepted + entries) else s
    case SendPersist =>
      if s.sender == Running && HasRoom(s) then EnqueueWithTicket(s, Persisting(|s.tickets|), false) else s
    case SendFlush =>
      if s.sender == Running && HasRoom(s) then EnqueueWithTicket(s, Flush(|s.tickets|), false) else s
    case TakeRunning => if s.sender == Running then s.(sender := Sending) else s
    case SendShutdown =>
      if s.sender == Sending && HasRoom(s)
      then EnqueueWithTicket(s, Shutdown(|s.tickets|), true).(sender := Sent) else s
    case AbandonShutdown => if s.sender == Sending then s.(sender := Dropped) else s
    case Work(fault) => WorkOnce(codec, s, fault)
  }

  function TakeAll(codec: Codec, capacity: nat, steps: seq<Step>): System {
    if steps == [] then Start(capacity)
    else Take(codec, TakeAll(codec, capacity, steps[..|steps| - 1]), steps[|steps| - 1])
  }

  // ----- the invariant -----

  function QueuedEntries(queue: seq<Command>): seq<SessionEntry> {
    if queue == [] then []
    else (if queue[0].Buffer? then queue[0].entries else []) + QueuedEntries(queue[1..])
  }

  /** Behind `n` accepted entries stand the commands of `queue`: every ticket still waits, and was sent
      after exactly the entries in front of it. Only the last command may be a shutdown. */
  ghost predicate QueueSound(queue: seq<Command>, n: nat, tickets: seq<Ticket>)
    decreases |queue|
  {
    queue != [] ==>
      match queue[0]
      case Buffer(entries) => QueueSound(queue[1..], n + |entries|, tickets)
      case Persisting(ticket) => TicketWaits(ticket, n, tickets, false) && QueueSound(queue[1..], n, tickets)
      case Flush(ticket) => TicketWaits(ticket, n, tickets, false) && QueueSound(queue[1..], n, tickets)
      case Shutdown(ticket) => TicketWaits(ticket, n, tickets, true) && queue[1..] == []
  }

  ghost predicate TicketWaits(ticket: nat, n: nat, tickets: seq<Ticket>, isShutdown: bool) {
    && ticket < |tickets|
    && tickets[ticket] == Ticket(n, isShutdown, None)
  }

  /** Tickets are answered in the order in which they were sent. */
  ghost predicate Ascending(queue: seq<Command>, first: nat)
    decreases |queue|
  {
    queue != [] ==>
      match queue[0]
      case Buffer(_) => Ascending(queue[1..], first)
      case Persisting(ticket) => first <= ticket && Ascending(queue[1..], ticket + 1)
      case Flush(ticket) => first <= ticket && Ascending(queue[1..], ticket + 1)
      case Shutdown(ticket) => first <= ticket && Ascending(queue[1..], ticket + 1)
  }

  ghost predicate EndsInShutdown(queue: seq<Command>) {
    queue != [] && queue[|queue| - 1].Shutdown?
  }

  ghost predicate NoShutdown(queue: seq<Command>) {
    forall i :: 0 <= i < |queue| ==> !queue[i].Shutdown?
  }

  ghost predicate NoShutdownTicket(tickets: seq<Ticket>) {
    forall t :: 0 <= t < |tickets| ==> !tickets[t].isShutdown
  }

  ghost predicate Answered(s: System, ticket: Ticket) {
    ticket.reply == Some(true) ==>
      && ticket.sentAfter <= s.run.committed
      && (ticket.isShutdown ==> s.run.committed == |s.accepted|)
  }

  /** Nothing is lost between acceptance and the worker's history. */
  ghost predicate FlowSound(codec: Codec, s: System) {
    && s.accepted == s.run.accepted + QueuedEntries(s.queue)
    && Conserved(s.run)
    && s.run == RunAll(codec, s.events)
  }

  ghost predicate TicketsSound(s: System) {
    && QueueSound(s.queue, |s.run.accepted|, s.tickets)
    && Ascending(s.queue, 0)
    && |s.queue| <= s.capacity
  }

  ghost predicate SenderSound(s: System) {
    && (s.sender == Sent ==> s.stopped || EndsInShutdown(s.queue))
    && (s.sender != Sent ==> NoShutdown(s.queue) && NoShutdownTicket(s.tickets))
    && (s.stopped ==> s.queue == [] && (s.sender == Sent || s.sender == Dropped))
  }

  ghost predicate RepliesSound(s: System) {
    forall t :: 0 <= t < |s.tickets| ==> Answered(s, s.tickets[t])
  }

  ghost predicate Sound(codec: Codec, s: System) {
    FlowSound(codec, s) && TicketsSound(s) && SenderSound(s) && RepliesSound(s)
  }

  // ----- queue lemmas -----

  lemma {:induction false} QueuedEntriesSnoc(queue: seq<Command>, command: Command)
    ensures QueuedEntries(queue + [command])
            == QueuedEntries(queue) + if command.Buffer? then command.entries else []
  {
    if queue == [] {
      assert queue + [command] == [command];
    } else {
      assert (queue + [command])[1..] == queue[1..] + [command];
      QueuedEntriesSnoc(queue[1..], command);
      var first := if queue[0].Buffer? then queue[0].entries else [];
      var last := if command.Buffer? then command.entries else [];
      assert (first + QueuedEntries(queue[1..])) + last == first + (QueuedEntries(queue[1..]) + last);
    }
  }

  lemma {:induction false} BufferKeepsQueueSound(queue: seq<Command>, entries: seq<SessionEntry>, n: nat,
                                                 tickets: seq<Ticket>)
    requires QueueSound(queue, n, tickets) && NoShutdown(queue)
    ensures QueueSound(queue + [Buffer(entries)], n, tickets)
    decreases |queue|
  {
    var longer := queue + [Buffer(entries)];
    if queue == [] {
      assert longer[1..] == [];
    } else {
      assert longer[1..] == queue[1..] + [Buffer(entries)];
      assert !queue[0].Shutdown?;
      BufferKeepsQueueSound(queue[1..], entries, if queue[0].Buffer? then n + |queue[0].entries| else n, tickets);
    }
  }

  ghost predicate Asks(command: Command, ticket: nat, isShutdown: bool) {
    if isShutdown then command == Shutdown(ticket) else command == Persisting(ticket) || command == Flush(ticket)
  }

  lemma {:induction false} TicketKeepsQueueSound(queue: seq<Command>, command: Command, n: nat,
                                                 tickets: seq<Ticket>, isShutdown: bool)
    requires QueueSound(queue, n, tickets) && NoShutdown(queue)
    requires Asks(command, |tickets|, isShutdown)
    ensures QueueSound(queue + [command], n, tickets + [Ticket(n + |QueuedEntries(queue)|, isShutdown, None)])
    decreases |queue|
  {
    var longer := queue + [command];
    if queue == [] {
      assert longer[1..] == [];
    } else {
      assert longer[1..] == queue[1..] + [command];
      assert !queue[0].Shutdown?;
      TicketKeepsQueueSound(queue[1..], command, if queue[0].Buffer? then n + |queue[0].entries| else n,
                            tickets, isShutdown);
    }
  }

  lemma {:induction false} AscendingSnoc(queue: seq<Command>, first: nat, command: Command, ticket: nat, n: nat,
                                         tickets: seq<Ticket>)
    requires Ascending(queue, first) && QueueSound(queue, n, tickets)
    requires first <= ticket && |tickets| <= ticket
    requires command.Buffer? || command == Persisting(ticket) || command == Flush(ticket) || command == Shutdown(ticket)
    ensures Ascending(queue + [command], first)
    decreases |queue|
  {
    var longer := queue + [command];
    if queue == [] {
      assert longer[1..] == [];
    } else {
      assert longer[1..] == queue[1..] + [command];
      match queue[0]
      case Buffer(entries) => AscendingSnoc(queue[1..], first, command, ticket, n + |entries|, tickets);
      case Persisting(t) => AscendingSnoc(queue[1..], t + 1, command, ticket, n, tickets);
      case Flush(t) => AscendingSnoc(queue[1..], t + 1, command, ticket, n, tickets);
      case Shutdown(t) => AscendingSnoc(queue[1..], t + 1, command, ticket, n, tickets);
    }
  }

  /** Answering a ticket does not touch the ones behind it. */
  lemma {:induction false} AnswerKeepsQueueSound(queue: seq<Command>, n: nat, tickets: seq<Ticket>,
                                                     ticket: nat, ok: bool)
    requires ticket < |tickets| && QueueSound(queue, n, tickets) && Ascending(queue, ticket + 1)
    ensures QueueSound(queue, n, tickets[ticket := tickets[ticket].(reply := Some(ok))])
    decreases |queue|
  {
    if queue != [] {
      match queue[0]
      case Buffer(entries) => AnswerKeepsQueueSound(queue[1..], n + |entries|, tickets, ticket, ok);
      case Persisting(t) =>
        AscendingFromEarlier(queue[1..], ticket + 1, t + 1);
        AnswerKeepsQueueSound(queue[1..], n, tickets, ticket, ok);
      case Flush(t) =>
        AscendingFromEarlier(queue[1..], ticket + 1, t + 1);
        AnswerKeepsQueueSound(queue[1..], n, tickets, ticket, ok);
      case Shutdown(t) =>
    }
  }

  lemma {:induction false} AscendingFromEarlier(queue: seq<Command>, earlier: nat, first: nat)
    requires Ascending(queue, first) && earlier <= first
    ensures Ascending(queue, earlier)
    decreases |queue|
  {
    if queue != [] && queue[0].Buffer? {
      AscendingFromEarlier(queue[1..], earlier, first);
    }
  }

  // ----- every step keeps the invariant -----

  lemma AdvanceConserves(codec: Codec, run: Run, event: Event)
    requires Conserved(run)
    ensures var run' := Advance(codec, run, event);
      && Conserved(run')
      && run'.accepted == run.accepted + (if event.BufferEvent? then event.entries else [])
      && run.committed <= run'.committed
      && (event.PersistEvent? && PersistSucceeds(run.worker, event.fault) ==> run'.committed == |run.accepted|)
  {
    match event
    case BufferEvent(entries) =>
      assert (run.accepted + entries)[run.committed..] == run.accepted[run.committed..] + entries;
    case PersistEvent(fault) =>
      assert run.accepted[|run.accepted|..] == [];
  }

  lemma WorkerEventSound(codec: Codec, s: System, event: Event)
    requires s.run == RunAll(codec, s.events)
    ensures WorkerEvent(codec, s, event).run == RunAll(codec, WorkerEvent(codec, s, event).events)
  {
    assert (s.events + [event])[..|s.events|] == s.events;
  }

  lemma EnqueueBufferSound(codec: Codec, s: System, entries: seq<SessionEntry>)
    requires Sound(codec, s) && entries != []
    ensures Sound(codec, Take(codec, s, BufferMany(entries)))
  {
    hide RunAll;
    hide QueueSound;
    hide Ascending;
    if BufferManyResult(s, entries).Ok? {
      QueuedEntriesSnoc(s.queue, Buffer(entries));
      BufferKeepsQueueSound(s.queue, entries, |s.run.accepted|, s.tickets);
      AscendingSnoc(s.queue, 0, Buffer(entries), |s.tickets|, |s.run.accepted|, s.tickets);
      var s' := Take(codec, s, BufferMany(entries));
      assert s'.accepted == s'.run.accepted + QueuedEntries(s'.queue);
    }
  }

  lemma EnqueueTicketSound(codec: Codec, s: System, command: Command, isShutdown: bool)
    requires Sound(codec, s) && HasRoom(s) && NoShutdown(s.queue)
    requires Asks(command, |s.tickets|, isShutdown)
    requires s.sender == if isShutdown then Sending else Running
    ensures var s' := EnqueueWithTicket(s, command, isShutdown);
      Sound(codec, s'.(sender := if isShutdown then Sent else Running))
  {
    hide RunAll;
    QueuedEntriesSnoc(s.queue, command);
    TicketKeepsQueueSound(s.queue, command, |s.run.accepted|, s.tickets, isShutdown);
    AscendingSnoc(s.queue, 0, command, |s.tickets|, |s.run.accepted|, s.tickets);
    var s' := EnqueueWithTicket(s, command, isShutdown);
    assert QueuedEntries(s'.queue) == QueuedEntries(s.queue);
  }

  lemma FrontBuffer(codec: Codec, s: System, entries: seq<SessionEntry>)
    requires Sound(codec, s) && s.queue != [] && s.queue[0] == Buffer(entries)
    ensures QueueSound(s.queue[1..], |s.run.accepted + entries|, s.tickets) && Ascending(s.queue[1..], 0)
    ensures s.accepted == (s.run.accepted + entries) + QueuedEntries(s.queue[1..])
  {
    var behind := QueuedEntries(s.queue[1..]);
    assert (s.run.accepted + entries) + behind == s.run.accepted + (entries + behind);
  }

  lemma HandleBufferSound(codec: Codec, s: System, fault: WriteFault)
    requires Sound(codec, s) && s.queue != [] && s.queue[0].Buffer? && !s.stopped
    ensures Sound(codec, WorkOnce(codec, s, fault))
  {
    hide RunAll;
    hide Advance;
    var entries, s' := s.queue[0].entries, WorkOnce(codec, s, fault);
    FrontBuffer(codec, s, entries);
    AdvanceConserves(codec, s.run, BufferEvent(entries));
    assert FlowSound(codec, s') by {
      WorkerEventSound(codec, s.(queue := s.queue[1..]), BufferEvent(entries));
    }
    assert TicketsSound(s');
    assert SenderSound(s') by {
      WithoutFront(s.queue);
    }
    forall t | 0 <= t < |s'.tickets|
      ensures Answered(s', s'.tickets[t])
    {
      assert Answered(s, s.tickets[t]);
    }
  }

  /** The front of a sound queue, when it is a ticket, and what stands behind it. */
  lemma FrontTicket(codec: Codec, s: System, ticket: nat)
    requires Sound(codec, s) && s.queue != []
    requires s.queue[0] == Persisting(ticket) || s.queue[0] == Flush(ticket) || s.queue[0] == Shutdown(ticket)
    ensures ticket < |s.tickets| && s.tickets[ticket].sentAfter == |s.run.accepted|
    ensures s.tickets[ticket].isShutdown == s.queue[0].Shutdown?
    ensures s.queue[0].Shutdown? ==> s.queue[1..] == []
    ensures QueueSound(s.queue[1..], |s.run.accepted|, s.tickets) && Ascending(s.queue[1..], ticket + 1)
    ensures QueuedEntries(s.queue[1..]) == QueuedEntries(s.queue)
    ensures s.queue[0].Shutdown? ==> |s.accepted| == |s.run.accepted|
  {
    assert [] + QueuedEntries(s.queue[1..]) == QueuedEntries(s.queue[1..]);
  }

  /** A reply of Ok is honest, and earlier replies stay so. */
  lemma AnswerIsHonest(s: System, s': System, ticket: nat, ok: bool)
    requires RepliesSound(s)
    requires s'.accepted == s.accepted && s.run.committed <= s'.run.committed
    requires s.run.committed <= |s.run.accepted| <= |s.accepted|
    requires ok ==> s'.run.committed == |s.run.accepted|
    requires ticket < |s.tickets| && s'.tickets == s.tickets[ticket := s.tickets[ticket].(reply := Some(ok))]
    requires s.tickets[ticket].sentAfter == |s.run.accepted|
    requires s.tickets[ticket].isShutdown ==> |s.run.accepted| == |s.accepted|
    requires s'.run.committed <= |s.run.accepted|
    ensures RepliesSound(s')
  {
    forall t | 0 <= t < |s'.tickets|
      ensures Answered(s', s'.tickets[t])
    {
      assert Answered(s, s.tickets[t]);
    }
  }

  lemma WithoutFront(queue: seq<Command>)
    requires queue != []
    ensures NoShutdown(queue) ==> NoShutdown(queue[1..])
    ensures EndsInShutdown(queue) && queue[1..] != [] ==> EndsInShutdown(queue[1..])
    ensures EndsInShutdown(queue) && queue[1..] == [] ==> queue[0].Shutdown?
  {
  }

  lemma HandleTicketSound(codec: Codec, s: System, ticket: nat, fault: WriteFault)
    requires Sound(codec, s) && s.queue != [] && !s.stopped
    requires s.queue[0] == Persisting(ticket) || s.queue[0] == Flush(ticket) || s.queue[0] == Shutdown(ticket)
    ensures Sound(codec, WorkOnce(codec, s, fault))
  {
    hide RunAll;
    hide Advance;
    hide Ascending;
    var ok, s' := PersistSucceeds(s.run.worker, fault), WorkOnce(codec, s, fault);
    FrontTicket(codec, s, ticket);
    AdvanceConserves(codec, s.run, PersistEvent(fault));
    assert s'.run.accepted == s.run.accepted;
    assert s'.tickets == s.tickets[ticket := s.tickets[ticket].(reply := Some(ok))];
    assert FlowSound(codec, s') by {
      WorkerEventSound(codec, s.(queue := s.queue[1..]), PersistEvent(fault));
    }
    assert TicketsSound(s') by {
      AnswerKeepsQueueSound(s.queue[1..], |s.run.accepted|, s.tickets, ticket, ok);
      AscendingFromEarlier(s.queue[1..], 0, ticket + 1);
    }
    assert SenderSound(s') by {
      WithoutFront(s.queue);
    }
    assert RepliesSound(s') by {
      AnswerIsHonest(s, s', ticket, ok);
    }
  }

  lemma StepKeepsSound(codec: Codec, s: System, step: Step)
    requires Sound(codec, s)
    ensures Sound(codec, Take(codec, s, step))
  {
    match step
    case BufferMany(entries) =>
      if entries != [] { EnqueueBufferSound(codec, s, entries); }
    case SendPersist =>
      if s.sender == Running && HasRoom(s) { EnqueueTicketSound(codec, s, Persisting(|s.tickets|), false); }
    case SendFlush =>
      if s.sender == Running && HasRoom(s) { EnqueueTicketSound(codec, s, Flush(|s.tickets|), false); }
    case TakeRunning =>
    case SendShutdown =>
      if s.sender == Sending && HasRoom(s) { EnqueueTicketSound(codec, s, Shutdown(|s.tickets|), true); }
    case AbandonShutdown =>
    case Work(fault) =>
      if !s.stopped {
        if s.queue == [] {
          if s.sender == Dropped {
            AdvanceConserves(codec, s.run, PersistEvent(fault));
            WorkerEventSound(codec, s, PersistEvent(fault));
          }
        } else if s.queue[0].Buffer? {
          HandleBufferSound(codec, s, fault);
        } else {
          HandleTicketSound(codec, s, s.queue[0].ticket, fault);
        }
      }
  }

  /** Every reachable state is sound: nothing accepted is lost or reordered on its way, and no reply
      promises more than was committed. */
  lemma {:induction false} ProtocolIsSound(codec: Codec, capacity: nat, steps: seq<Step>)
    ensures Sound(codec, TakeAll(codec, capacity, steps))
  {
    if steps != [] {
      ProtocolIsSound(codec, capacity, steps[..|steps| - 1]);
      StepKeepsSound(codec, TakeAll(codec, capacity, steps[..|steps| - 1]), steps[|steps| - 1]);
    } else {
      assert [] + QueuedEntries([]) == [];
    }
  }

  /** Conservation: committed entries, pending entries and queued entries are, in this order, exactly
      what was accepted. */
  lemma {:induction false} AcceptedIsConserved(codec: Codec, capacity: nat, steps: seq<Step>)
    ensures var s := TakeAll(codec, capacity, steps);
      && s.run.committed <= |s.run.accepted|
      && s.accepted == s.run.accepted[..s.run.committed] + s.run.worker.pending + QueuedEntries(s.queue)
      && (s.sender == Running ==> !s.stopped)
      && |s.queue| <= capacity
  {
    ProtocolIsSound(codec, capacity, steps);
    CapacityStays(codec, capacity, steps);
    var s := TakeAll(codec, capacity, steps);
    assert s.run.accepted == s.run.accepted[..s.run.committed] + s.run.worker.pending;
  }

  lemma {:induction false} CapacityStays(codec: Codec, capacity: nat, steps: seq<Step>)
    ensures TakeAll(codec, capacity, steps).capacity == capacity
  {
    if steps != [] {
      CapacityStays(codec, capacity, steps[..|steps| - 1]);
    }
  }

  lemma ScanAtLeast(codec: Codec, run: Run, whole: seq<Byte>, pieces: seq<seq<Byte>>)
    requires Tracks(codec, run, whole, pieces)
    ensures Merge([], Records(codec, whole)) <= Scan(codec, run.worker.log)
  {
    RecordsAppend(codec, whole, Join(pieces));
    MergeAppend([], Records(codec, whole), Records(codec, Join(pieces)));
    MergeExtends(Merge([], Records(codec, whole)), Records(codec, Join(pieces)));
  }

  lemma {:induction false} PrefixIds(shorter: seq<SessionEntry>, longer: seq<SessionEntry>, id: string)
    requires shorter <= longer && HasId(shorter, id)
    ensures HasId(longer, id)
  {
    IdsMeaning(shorter, id);
    var i :| 0 <= i < |shorter| && shorter[i].id == id;
    assert longer[i].id == id;
    IdsMeaning(longer, id);
  }

  /** Of the first `n` accepted entries all are in the load but lost first entries; the others are in
      order, all of them if no batch was read late, and always those that were never behind a torn line. */
  ghost predicate LoadedUpTo(run: Run, accepted: seq<SessionEntry>, n: nat, loaded: seq<SessionEntry>)
    requires n <= |accepted| && AllComplete(run.done)
  {
    && (forall i :: 0 <= i < n && accepted[i].id !in Lost(run.done) ==> HasId(loaded, accepted[i].id))
    && (NoneLate(run.done) ==> Without(accepted[..n], Lost(run.done)) <= loaded)
    && Without(accepted[..n], run.torn) <= Without(loaded, run.torn)
  }

  lemma FinishedIsLoaded(run: Run, n: nat, loaded: seq<SessionEntry>)
    requires HistorySound(run) && DistinctIds(Written(run.done)) && n <= run.committed
    requires Loaded(run.done) <= loaded
    ensures n <= |run.accepted| && LoadedUpTo(run, run.accepted, n, loaded)
  {
    hide Written;
    hide Loaded;
    hide Lost;
    hide Ids;
    hide Without;
    hide NoneLate;
    hide Covers;
    var written, read, lost := Written(run.done), Loaded(run.done), Lost(run.done);
    var first := run.accepted[..n];
    assert first <= written;
    LoadedIds(run.done);
    LoadedButCovered(run.done, run.torn);
    WithoutPrefix(first, written, run.torn);
    WithoutPrefix(read, loaded, run.torn);
    if NoneLate(run.done) {
      LoadedInOrder(run.done);
      WithoutPrefix(first, written, lost);
    }
    forall i | 0 <= i < n && run.accepted[i].id !in lost
      ensures HasId(loaded, run.accepted[i].id)
    {
      assert written[i] == run.accepted[i];
      IdsMeaning(written, run.accepted[i].id);
      assert HasId(written, run.accepted[i].id) && HasId(read, run.accepted[i].id);
      PrefixIds(read, loaded, run.accepted[i].id);
    }
  }

  lemma CommittedIsLoaded(codec: Codec, events: seq<Event>, n: nat)
    requires Faithful(codec) && DistinctIds(RunAll(codec, events).accepted)
    requires n <= RunAll(codec, events).committed <= |RunAll(codec, events).accepted|
    ensures var run := RunAll(codec, events);
      AllComplete(run.done) && LoadedUpTo(run, run.accepted, n, Scan(codec, run.worker.log))
  {
    var run := RunAll(codec, events);
    AcceptedByRun(codec, events);
    var whole, pieces := RunTracks(codec, events);
    ScanAtLeast(codec, run, whole, pieces);
    DistinctParts(Written(run.done), run.worker.pending);
    hide Records;
    hide Merge;
    hide RunAll;
    hide Loaded;
    assert Loaded(run.done) <= Merge([], Records(codec, whole));
    FinishedIsLoaded(run, n, Scan(codec, run.worker.log));
  }

  /** An Ok reply is durable. Once a persist, flush or shutdown was answered Ok, a load of the file at
      any later moment, whatever has failed since, finds every entry accepted before it was sent but
      lost first entries, in order unless a batch was read late. */
  lemma {:induction false} OkReplyIsDurable(codec: Codec, capacity: nat, steps: seq<Step>, t: nat)
    requires Faithful(codec)
    requires var s := TakeAll(codec, capacity, steps);
      && DistinctIds(s.accepted)
      && t < |s.tickets| && s.tickets[t].reply == Some(true)
    ensures var s := TakeAll(codec, capacity, steps);
      var n, loaded := s.tickets[t].sentAfter, Scan(codec, s.run.worker.log);
      && n <= |s.accepted| && AllComplete(s.run.done)
      && LoadedUpTo(s.run, s.accepted, n, loaded)
      && (s.tickets[t].isShutdown ==> s.run.committed == |s.accepted|)
  {
    ProtocolIsSound(codec, capacity, steps);
    var s := TakeAll(codec, capacity, steps);
    var n := s.tickets[t].sentAfter;
    assert Answered(s, s.tickets[t]);
    hide TakeAll;
    hide RunAll;
    DistinctPrefix(s.run.accepted, QueuedEntries(s.queue));
    CommittedIsLoaded(codec, s.events, n);
    assert s.accepted[..n] == s.run.accepted[..n];
  }

  lemma {:induction false} AcceptedByRun(codec: Codec, events: seq<Event>)
    ensures RunAll(codec, events).accepted == Accepted(events)
  {
    if events != [] {
      AcceptedByRun(codec, events[..|events| - 1]);
      assert Accepted(events[..|events| - 1]) + [] == Accepted(events[..|events| - 1]);
    }
  }
}
