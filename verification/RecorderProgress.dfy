/** The recorder does what it is asked: requests are taken while there is room, every request gets one
    reply, and a worker whose writes succeed commits everything that was accepted. */
module RecorderProgress {
  import opened Wrappers
  import opened Jsonl
  import opened RecorderModel
  import opened DurabilityRuns
  import opened RecorderProtocol

  ghost predicate AsksFor(command: Command, ticket: nat) {
    command == Persisting(ticket) || command == Flush(ticket) || command == Shutdown(ticket)
  }

  ghost predicate IsQueued(queue: seq<Command>, ticket: nat) {
    exists i :: 0 <= i < |queue| && AsksFor(queue[i], ticket)
  }

  /** Every ticket without a reply stands in the queue. */
  ghost predicate NoneForgotten(s: System) {
    forall t: nat :: t < |s.tickets| && s.tickets[t].reply.None? ==> IsQueued(s.queue, t)
  }

  /** What was answered stays answered. */
  ghost predicate RepliesStay(s: System, s': System) {
    && |s.tickets| <= |s'.tickets|
    && forall t: nat :: t < |s.tickets| ==>
      && s'.tickets[t].(reply := None) == s.tickets[t].(reply := None)
      && (s.tickets[t].reply.Some? ==> s'.tickets[t].reply == s.tickets[t].reply)
  }

  /** A request that waited before waits still, or was answered Ok. */
  ghost predicate Waits(s: System, s': System)
    requires |s.tickets| <= |s'.tickets|
  {
    forall t: nat :: t < |s.tickets| && s.tickets[t].reply.None? ==>
      s'.tickets[t].reply.None? || s'.tickets[t].reply == Some(true)
  }

  // ----- the queue -----

  lemma QueuedSnoc(queue: seq<Command>, command: Command, ticket: nat)
    ensures IsQueued(queue, ticket) ==> IsQueued(queue + [command], ticket)
    ensures AsksFor(command, ticket) ==> IsQueued(queue + [command], ticket)
  {
    assert (queue + [command])[|queue|] == command;
    if IsQueued(queue, ticket) {
      var i :| 0 <= i < |queue| && AsksFor(queue[i], ticket);
      assert (queue + [command])[i] == queue[i];
    }
  }

  lemma QueuedBehindFront(queue: seq<Command>, ticket: nat)
    requires queue != [] && IsQueued(queue, ticket)
    ensures AsksFor(queue[0], ticket) || IsQueued(queue[1..], ticket)
  {
    var i :| 0 <= i < |queue| && AsksFor(queue[i], ticket);
    if i > 0 { assert queue[1..][i - 1] == queue[i]; }
  }

  /** What one command does: it leaves the queue, and its ticket, if it has one, gets its reply, and no
      other. */
  lemma WorkAnswersFront(codec: Codec, s: System, fault: WriteFault)
    requires Sound(codec, s) && !s.stopped && s.queue != []
    ensures var s' := Take(codec, s, Work(fault));
      && s'.queue == s.queue[1..] && s'.sender == s.sender && s'.accepted == s.accepted
      && |s'.tickets| == |s.tickets| && RepliesStay(s, s')
      && (s'.stopped <==> s.queue[0].Shutdown?)
      && (forall t: nat :: t < |s.tickets| && !AsksFor(s.queue[0], t) ==> s'.tickets[t] == s.tickets[t])
      && forall t: nat :: AsksFor(s.queue[0], t) ==>
        && t < |s.tickets| && s.tickets[t].reply.None?
        && s'.tickets[t].reply == Some(PersistSucceeds(s.run.worker, fault))
  {
    hide Advance;
    hide FlowSound;
    hide SenderSound;
    hide RepliesSound;
    hide Ascending;
  }

  // ----- every run -----

  lemma WorkForgetsNone(codec: Codec, s: System, fault: WriteFault)
    requires Sound(codec, s) && NoneForgotten(s)
    ensures var s' := Take(codec, s, Work(fault)); NoneForgotten(s') && RepliesStay(s, s')
  {
    if s.stopped || s.queue == [] {
      hide Sound;
      hide NoneForgotten;
      hide Advance;
      SameTickets(s, Take(codec, s, Work(fault)));
    } else {
      WorkAnswersFront(codec, s, fault);
      hide Take;
      hide Sound;
      var s' := Take(codec, s, Work(fault));
      forall t: nat | t < |s'.tickets| && s'.tickets[t].reply.None?
        ensures IsQueued(s'.queue, t)
      {
        assert s.tickets[t].reply.None?;
        QueuedBehindFront(s.queue, t);
      }
    }
  }

  lemma SameTickets(s: System, s': System)
    requires NoneForgotten(s) && s'.tickets == s.tickets && s'.queue == s.queue
    ensures NoneForgotten(s') && RepliesStay(s, s')
  {
  }

  lemma SendForgetsNone(s: System, s': System, command: Command)
    requires NoneForgotten(s) && s'.queue == s.queue + [command]
    requires s'.tickets == s.tickets
             || (s.tickets <= s'.tickets && |s'.tickets| == |s.tickets| + 1 && AsksFor(command, |s.tickets|))
    ensures NoneForgotten(s') && RepliesStay(s, s')
  {
    forall t: nat | t < |s'.tickets| && s'.tickets[t].reply.None?
      ensures IsQueued(s'.queue, t)
    {
      QueuedSnoc(s.queue, command, t);
      if t < |s.tickets| { assert s.tickets[t] == s'.tickets[t]; }
    }
  }

  lemma StepForgetsNone(codec: Codec, s: System, step: Step)
    requires Sound(codec, s) && NoneForgotten(s)
    ensures NoneForgotten(Take(codec, s, step)) && RepliesStay(s, Take(codec, s, step))
  {
    hide Sound;
    hide NoneForgotten;
    hide RepliesStay;
    var s' := Take(codec, s, step);
    if step.Work? {
      WorkForgetsNone(codec, s, step.fault);
    } else if s'.queue == s.queue {
      SameTickets(s, s');
    } else {
      SendForgetsNone(s, s', s'.queue[|s.queue|]);
    }
  }

  /** Over every run: a request that has no reply yet is still in the queue. */
  lemma {:induction false} NoRequestIsForgotten(codec: Codec, capacity: nat, steps: seq<Step>)
    ensures NoneForgotten(TakeAll(codec, capacity, steps))
  {
    if steps != [] {
      var front := steps[..|steps| - 1];
      NoRequestIsForgotten(codec, capacity, front);
      ProtocolIsSound(codec, capacity, front);
      StepForgetsNone(codec, TakeAll(codec, capacity, front), steps[|steps| - 1]);
    }
  }

  /** Every request gets at most one reply. */
  lemma RepliesAreFinal(codec: Codec, capacity: nat, steps: seq<Step>, step: Step)
    ensures RepliesStay(TakeAll(codec, capacity, steps), TakeAll(codec, capacity, steps + [step]))
  {
    ProtocolIsSound(codec, capacity, steps);
    NoRequestIsForgotten(codec, capacity, steps);
    StepForgetsNone(codec, TakeAll(codec, capacity, steps), step);
    assert (steps + [step])[..|steps|] == steps;
  }

  // ----- the worker alone -----

  function WorkAll(codec: Codec, s: System, faults: seq<WriteFault>): System
    decreases |faults|
  {
    if faults == [] then s else WorkAll(codec, Take(codec, s, Work(faults[0])), faults[1..])
  }

  ghost predicate NoFaults(faults: seq<WriteFault>) { forall i :: 0 <= i < |faults| ==> faults[i].NoFault? }

  lemma StopsOnlyForShutdown(codec: Codec, s: System)
    requires Sound(codec, s) && s.queue != []
    ensures !s.stopped && (s.queue[0].Shutdown? ==> s.sender == Sent)
  {
    hide FlowSound;
    hide TicketsSound;
    hide RepliesSound;
  }

  /** One command further every request still waits, or was just answered. */
  lemma WorkStep(codec: Codec, s: System, fault: WriteFault)
    requires Sound(codec, s) && NoneForgotten(s) && s.queue != []
    ensures var s' := Take(codec, s, Work(fault));
      && Sound(codec, s') && NoneForgotten(s') && RepliesStay(s, s')
      && s'.queue == s.queue[1..] && s'.sender == s.sender && s'.accepted == s.accepted
      && |s'.tickets| == |s.tickets| && (s'.stopped ==> s.sender == Sent)
      && (fault.NoFault? ==> Waits(s, s'))
  {
    hide Take;
    hide Sound;
    StopsOnlyForShutdown(codec, s);
    WorkAnswersFront(codec, s, fault);
    StepKeepsSound(codec, s, Work(fault));
    StepForgetsNone(codec, s, Work(fault));
    var s' := Take(codec, s, Work(fault));
    forall t: nat | t < |s.tickets| && s.tickets[t].reply.None?
      ensures fault.NoFault? ==> s'.tickets[t].reply.None? || s'.tickets[t].reply == Some(true)
    {
      assert AsksFor(s.queue[0], t) || s'.tickets[t] == s.tickets[t];
    }
  }

  /** The worker empties the queue, and answers everything in it. */
  lemma {:induction false} QueueDrains(codec: Codec, s: System, faults: seq<WriteFault>)
    requires Sound(codec, s) && NoneForgotten(s) && |faults| == |s.queue|
    ensures var s' := WorkAll(codec, s, faults);
      && Sound(codec, s') && NoneForgotten(s') && RepliesStay(s, s')
      && s'.queue == [] && s'.sender == s.sender && s'.accepted == s.accepted && |s'.tickets| == |s.tickets|
      && (s'.stopped ==> s.stopped || s.sender == Sent)
      && (NoFaults(faults) ==> Waits(s, s'))
    decreases |faults|
  {
    hide Take;
    hide Sound;
    hide NoneForgotten;
    if faults != [] {
      var s1 := Take(codec, s, Work(faults[0]));
      WorkStep(codec, s, faults[0]);
      QueueDrains(codec, s1, faults[1..]);
    }
  }

  lemma {:induction false} WorkIsARun(codec: Codec, capacity: nat, steps: seq<Step>, faults: seq<WriteFault>)
    ensures WorkAll(codec, TakeAll(codec, capacity, steps), faults)
            == TakeAll(codec, capacity, steps + seq(|faults|, i requires 0 <= i < |faults| => Work(faults[i])))
    decreases |faults|
  {
    hide Take;
    var works := seq(|faults|, i requires 0 <= i < |faults| => Work(faults[i]));
    if faults == [] {
      assert steps + works == steps;
    } else {
      var first, rest := Work(faults[0]), faults[1..];
      assert (steps + [first])[..|steps|] == steps;
      WorkIsARun(codec, capacity, steps + [first], rest);
      assert steps + works == steps + [first] + seq(|rest|, i requires 0 <= i < |rest| => Work(rest[i]));
    }
  }

  // ----- what callers can rely on -----

  ghost predicate EverythingCommitted(s: System) { s.queue == [] && s.run.committed == |s.accepted| }

  lemma CommittedByTicket(codec: Codec, s: System, t: nat)
    requires Sound(codec, s) && s.queue == [] && t < |s.tickets|
    requires s.tickets[t].reply == Some(true) && s.tickets[t].sentAfter == |s.accepted|
    ensures EverythingCommitted(s)
  {
    assert Answered(s, s.tickets[t]);
  }

  lemma WhileRunning(codec: Codec, capacity: nat, steps: seq<Step>)
    ensures var s := TakeAll(codec, capacity, steps);
      && Sound(codec, s) && NoneForgotten(s) && s.capacity == capacity && (s.sender == Running ==> !s.stopped)
  {
    ProtocolIsSound(codec, capacity, steps);
    NoRequestIsForgotten(codec, capacity, steps);
    CapacityStays(codec, capacity, steps);
  }

  lemma StepIsFine(codec: Codec, s: System, step: Step)
    requires Sound(codec, s) && NoneForgotten(s)
    ensures Sound(codec, Take(codec, s, step)) && NoneForgotten(Take(codec, s, step))
  {
    StepKeepsSound(codec, s, step);
    StepForgetsNone(codec, s, step);
  }

  lemma AskingIsHeard(codec: Codec, s: System, entries: seq<SessionEntry>, ask: Step)
    requires s.sender == Running && !s.stopped && |s.queue| + 2 <= s.capacity && entries != []
    requires ask == SendPersist || ask == SendFlush
    ensures var asked := Take(codec, Take(codec, s, BufferMany(entries)), ask);
      && asked.accepted == s.accepted + entries && |asked.queue| == |s.queue| + 2
      && asked.tickets == s.tickets + [Ticket(|s.accepted + entries|, false, None)]
  {
  }

  /** Entries buffered by a running recorder with room for two commands, and a persist or flush behind
      them: once the worker got there without a failed write, the request has its Ok and every entry
      accepted, these last, is committed. */
  lemma PersistedWhenAsked(codec: Codec, capacity: nat, steps: seq<Step>, entries: seq<SessionEntry>, flush: bool,
                           faults: seq<WriteFault>)
    requires var s := TakeAll(codec, capacity, steps);
      && s.sender == Running && |s.queue| + 2 <= capacity && entries != []
      && |faults| == |s.queue| + 2 && NoFaults(faults)
    ensures var s := TakeAll(codec, capacity, steps);
      var asked := Take(codec, Take(codec, s, BufferMany(entries)), if flush then SendFlush else SendPersist);
      var s' := WorkAll(codec, asked, faults);
      && |s'.tickets| == |s.tickets| + 1 && s'.tickets[|s.tickets|].reply == Some(true)
      && s'.accepted == s.accepted + entries && EverythingCommitted(s')
  {
    WhileRunning(codec, capacity, steps);
    var s := TakeAll(codec, capacity, steps);
    var ask := if flush then SendFlush else SendPersist;
    var buffered := Take(codec, s, BufferMany(entries));
    var asked := Take(codec, buffered, ask);
    hide Take;
    hide TakeAll;
    hide Sound;
    AskingIsHeard(codec, s, entries, ask);
    StepIsFine(codec, s, BufferMany(entries));
    StepIsFine(codec, buffered, ask);
    QueueDrains(codec, asked, faults);
    var s' := WorkAll(codec, asked, faults);
    hide WorkAll;
    AllAnswered(s', |s.tickets|);
    CommittedByTicket(codec, s', |s.tickets|);
  }

  lemma AllAnswered(s: System, t: nat)
    requires NoneForgotten(s) && s.queue == [] && t < |s.tickets|
    ensures s.tickets[t].reply.Some?
  {
  }

  /** A shutdown of a running recorder with room: the worker stops, having committed everything. */
  lemma ShutdownCommitsAll(codec: Codec, capacity: nat, steps: seq<Step>, faults: seq<WriteFault>)
    requires var s := TakeAll(codec, capacity, steps);
      s.sender == Running && |s.queue| < capacity && |faults| == |s.queue| + 1 && NoFaults(faults)
    ensures var s := TakeAll(codec, capacity, steps);
      var s' := WorkAll(codec, Take(codec, Take(codec, s, TakeRunning), SendShutdown), faults);
      && s'.stopped && |s'.tickets| == |s.tickets| + 1 && s'.tickets[|s.tickets|].reply == Some(true)
      && s'.accepted == s.accepted && EverythingCommitted(s')
  {
    WhileRunning(codec, capacity, steps);
    var s := TakeAll(codec, capacity, steps);
    var taken := Take(codec, s, TakeRunning);
    var asked := Take(codec, taken, SendShutdown);
    assert asked.tickets == s.tickets + [Ticket(|s.accepted|, true, None)] && |asked.queue| == |s.queue| + 1;
    assert asked.sender == Sent && asked.accepted == s.accepted;
    StepIsFine(codec, s, TakeRunning);
    StepIsFine(codec, taken, SendShutdown);
    hide Take;
    hide TakeAll;
    hide FlowSound;
    hide TicketsSound;
    QueueDrains(codec, asked, faults);
    var s' := WorkAll(codec, asked, faults);
    hide WorkAll;
    AllAnswered(s', |s.tickets|);
    CommittedByTicket(codec, s', |s.tickets|);
  }

  /** When the sender is dropped without a shutdown, the worker empties the queue and persists once more;
      if that succeeds, everything is committed, whatever failed before. */
  lemma DroppedSenderCommitsAll(codec: Codec, capacity: nat, steps: seq<Step>, faults: seq<WriteFault>,
                                last: WriteFault)
    requires var s := TakeAll(codec, capacity, steps);
      s.sender == Dropped && !s.stopped && |faults| == |s.queue|
    ensures var s := TakeAll(codec, capacity, steps);
      var s' := Take(codec, WorkAll(codec, s, faults), Work(last));
      s'.stopped && s'.accepted == s.accepted && (last.NoFault? ==> EverythingCommitted(s'))
  {
    WhileRunning(codec, capacity, steps);
    var s := TakeAll(codec, capacity, steps);
    hide TakeAll;
    hide NoneForgotten;
    hide RepliesStay;
    QueueDrains(codec, s, faults);
    hide WorkAll;
    LastPersist(codec, WorkAll(codec, s, faults), last);
  }

  lemma LastPersist(codec: Codec, s: System, fault: WriteFault)
    requires FlowSound(codec, s) && s.queue == [] && s.sender == Dropped && !s.stopped
    ensures var s' := Take(codec, s, Work(fault));
      s'.stopped && s'.accepted == s.accepted && (fault.NoFault? ==> EverythingCommitted(s'))
  {
    AdvanceConserves(codec, s.run, PersistEvent(fault));
    hide Advance;
    hide RunAll;
    hide Conserved;
    var s' := WorkerEvent(codec, s, PersistEvent(fault)).(stopped := true);
    assert Take(codec, s, Work(fault)) == s';
    assert s.accepted == s.run.accepted + [];
  }
}
