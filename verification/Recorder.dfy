/** The recorder's objects: the lazily opened file writer, the worker with its retry buffer, and the
    handle that owns the sending side of the queue. */
module Recorder {
  import opened Wrappers
  import opened Jsonl
  import opened Numbers
  import opened JsonlLog
  import opened RecorderModel
  import opened Durability
  import opened BatchReadings
  import opened DurabilityRuns
  import Protocol = RecorderProtocol

  /** What the file system does to one batch: whether the file can be opened, and at which entry the
      write fails (the number of entries stands for the final flush, anything above for no failure),
      while serializing or while writing, with how many bytes of what was buffered reaching the file. */
  datatype IoPlan = IoPlan(opens: bool, failAt: nat, whileSerializing: bool, kept: nat)

  function BufferedWhenFailing(codec: Codec, entries: seq<SessionEntry>, plan: IoPlan): seq<Byte>
    requires plan.failAt <= |entries|
  {
    if plan.whileSerializing || plan.failAt == |entries| then BatchBytes(codec, entries[..plan.failAt])
    else BatchBytes(codec, entries[..plan.failAt + 1])
  }

  /** The fault, as the durability results see it. */
  function FaultOf(codec: Codec, entries: seq<SessionEntry>, isOpen: bool, plan: IoPlan): WriteFault {
    if !isOpen && !plan.opens then Fault(0)
    else if plan.failAt > |entries| then NoFault
    else
      var buffered := BufferedWhenFailing(codec, entries, plan);
      Fault(if plan.kept <= |buffered| then plan.kept else |buffered|)
  }

  /** The error a failed batch reports: an entry that cannot be serialized is named, and everything else is
      an error of input and output. */
  ghost predicate Reports(error: StoreError, entries: seq<SessionEntry>, isOpen: bool, plan: IoPlan) {
    if (isOpen || plan.opens) && plan.failAt < |entries| && plan.whileSerializing
    then error == SerializeEntry(entries[plan.failAt].id)
    else error == IoError
  }

  lemma {:induction false} BatchSnoc(codec: Codec, entries: seq<SessionEntry>, i: nat)
    requires i < |entries|
    ensures BatchBytes(codec, entries[..i + 1]) == BatchBytes(codec, entries[..i]) + EntryBytes(codec, entries[i])
  {
    if i == 0 {
      assert entries[..1][1..] == [] && entries[..0] == [];
    } else {
      BatchSnoc(codec, entries[1..], i - 1);
      BatchCons(codec, entries, i + 1);
      BatchCons(codec, entries, i);
      var first := EntryBytes(codec, entries[0]);
      var middle := BatchBytes(codec, entries[1..][..i - 1]);
      assert first + (middle + EntryBytes(codec, entries[i])) == (first + middle) + EntryBytes(codec, entries[i]);
    }
  }

  lemma {:induction false} BatchPrefix(codec: Codec, entries: seq<SessionEntry>, i: nat)
    requires i <= |entries|
    ensures BatchBytes(codec, entries[..i]) <= BatchBytes(codec, entries)
    decreases |entries| - i
  {
    if i < |entries| {
      BatchSnoc(codec, entries, i);
      BatchPrefix(codec, entries, i + 1);
    } else {
      assert entries[..i] == entries;
    }
  }

  /** A write succeeds exactly if the file is open or opens and nothing fails. What a failed one leaves are
      the first bytes, as many as got through, of what was buffered by then: the entries in front of the
      failure, and the failing entry too if it was serialized. */
  lemma WhatAFailureLeaves(codec: Codec, log: seq<Byte>, entries: seq<SessionEntry>, isOpen: bool, plan: IoPlan)
    ensures var fault := FaultOf(codec, entries, isOpen, plan);
      var after := LogAfterWrite(codec, log, entries, fault);
      && (fault.NoFault? <==> (isOpen || plan.opens) && |entries| < plan.failAt)
      && (fault.NoFault? ==> after == log + BatchBytes(codec, entries))
      && (!isOpen && !plan.opens ==> after == log)
      && ((isOpen || plan.opens) && plan.failAt <= |entries| ==>
            var n := plan.failAt + if plan.whileSerializing || plan.failAt == |entries| then 0 else 1;
            && log <= after <= log + BatchBytes(codec, entries[..n])
            && |after| == |log| + Min(plan.kept, |BatchBytes(codec, entries[..n])|))
  {
    if plan.failAt <= |entries| {
      BatchPrefix(codec, entries, plan.failAt + if plan.whileSerializing || plan.failAt == |entries| then 0 else 1);
    }
    hide BatchBytes;
    assert BatchBytes(codec, entries)[..|BatchBytes(codec, entries)|] == BatchBytes(codec, entries);
  }

  class SessionFile {
    var bytes: seq<Byte>

    constructor ()
      ensures bytes == []
    {
      bytes := [];
    }
  }

  /** The buffered writer opens its file with the first batch. */
  class JsonlWriter {
    const file: SessionFile
    var isOpen: bool

    constructor (file: SessionFile)
      ensures this.file == file && !isOpen
    {
      this.file := file;
      isOpen := false;
    }

    method WriteBatch(codec: Codec, entries: seq<SessionEntry>, plan: IoPlan) returns (result: Result<(), StoreError>)
      modifies this, file
      ensures entries == [] ==> result.Ok? && file.bytes == old(file.bytes) && isOpen == old(isOpen)
      ensures entries != [] ==>
        var fault := FaultOf(codec, entries, old(isOpen), plan);
        && file.bytes == LogAfterWrite(codec, old(file.bytes), entries, fault)
        && (result.Ok? <==> fault.NoFault?)
        && isOpen == (old(isOpen) || plan.opens)
      ensures result.Err? ==> Reports(result.error, entries, old(isOpen), plan)
    {
      if entries == [] { return Ok(()); }
      if !isOpen {
        if !plan.opens { return Err(IoError); }
        isOpen := true;
      }
      var buffered: seq<Byte> := [];
      var i := 0;
      while i < |entries|
        invariant 0 <= i <= |entries| && i <= plan.failAt
        invariant buffered == BatchBytes(codec, entries[..i])
        invariant file.bytes == old(file.bytes) && isOpen == (old(isOpen) || plan.opens)
      {
        if i == plan.failAt && plan.whileSerializing {
          FlushKept(codec, entries, buffered, plan, i);
          return Err(SerializeEntry(entries[i].id));
        }
        BatchSnoc(codec, entries, i);
        buffered := buffered + codec.serialize(entries[i]) + [NEWLINE];
        assert buffered == BatchBytes(codec, entries[..i]) + EntryBytes(codec, entries[i]);
        if i == plan.failAt {
          FlushKept(codec, entries, buffered, plan, i + 1);
          return Err(IoError);
        }
        i := i + 1;
      }
      assert entries[..i] == entries;
      if plan.failAt == |entries| {
        FlushKept(codec, entries, buffered, plan, i);
        return Err(IoError);
      }
      assert buffered[..|buffered|] == buffered;
      file.bytes := file.bytes + buffered;
      result := Ok(());
    }

    /** Dropping the writer leaves a prefix of its buffer in the file. */
    method FlushKept(codec: Codec, ghost entries: seq<SessionEntry>, buffered: seq<Byte>, plan: IoPlan, ghost n: nat)
      requires n <= |entries| && buffered == BatchBytes(codec, entries[..n])
      modifies file
      ensures var kept := if plan.kept <= |buffered| then plan.kept else |buffered|;
        file.bytes == LogAfterWrite(codec, old(file.bytes), entries, Fault(kept))
    {
      var kept := if plan.kept <= |buffered| then plan.kept else |buffered|;
      BatchPrefix(codec, entries, n);
      assert BatchBytes(codec, entries)[..kept] == buffered[..kept];
      file.bytes := file.bytes + buffered[..kept];
    }
  }

  /** What a worker's next action depends on. */
  datatype WorkerView = WorkerView(worker: Worker, isOpen: bool)

  function PersistView(codec: Codec, view: WorkerView, plan: IoPlan): WorkerView {
    var Worker(log, pending) := view.worker;
    var fault := FaultOf(codec, pending, view.isOpen, plan);
    WorkerView(PersistPending(codec, view.worker, fault),
               if pending == [] then view.isOpen else fault.NoFault?)
  }

  function HandleView(codec: Codec, view: WorkerView, command: Protocol.Command, plan: IoPlan): WorkerView {
    match command
    case Buffer(entries) => view.(worker := BufferEntries(view.worker, entries))
    case _ => PersistView(codec, view, plan)
  }

  /** The receive loop: commands until a shutdown or the end of the channel, then one last persist. */
  function RunView(codec: Codec, view: WorkerView, commands: seq<Protocol.Command>, plans: nat -> IoPlan, n: nat)
    : WorkerView
    decreases |commands|
  {
    if commands == [] then PersistView(codec, view, plans(n))
    else
      var next := HandleView(codec, view, commands[0], plans(n));
      if commands[0].Shutdown? then next else RunView(codec, next, commands[1..], plans, n + 1)
  }

  class RecorderWorker {
    const file: SessionFile
    var writer: JsonlWriter
    var pendingEntries: seq<SessionEntry>

    ghost predicate Valid()
      reads this, writer
    {
      writer.file == file
    }

    function View(): WorkerView
      reads this, writer, file
    {
      WorkerView(Worker(file.bytes, pendingEntries), writer.isOpen)
    }

    constructor (file: SessionFile)
      ensures Valid() && fresh(writer) && this.file == file
      ensures View() == WorkerView(Worker(file.bytes, []), false)
    {
      this.file := file;
      writer := new JsonlWriter(file);
      pendingEntries := [];
    }

    method PersistPending(codec: Codec, plan: IoPlan) returns (result: Result<(), StoreError>)
      requires Valid()
      modifies this, writer, file
      ensures Valid() && (writer == old(writer) || fresh(writer))
      ensures View() == PersistView(codec, old(View()), plan)
      ensures result.Ok? <==>
        PersistSucceeds(old(View()).worker, FaultOf(codec, old(pendingEntries), old(writer.isOpen), plan))
      ensures result.Err? ==> Reports(result.error, old(pendingEntries), old(writer.isOpen), plan)
      ensures if result.Ok? then writer == old(writer) && pendingEntries == []
              else fresh(writer) && !writer.isOpen && pendingEntries == old(pendingEntries)
    {
      if pendingEntries == [] { return Ok(()); }
      result := writer.WriteBatch(codec, pendingEntries, plan);
      match result {
        case Ok(_) => pendingEntries := [];
        case Err(_) => writer := new JsonlWriter(file);
      }
    }

    method Handle(codec: Codec, command: Protocol.Command, plan: IoPlan)
      returns (stop: bool, reply: Option<Result<(), StoreError>>)
      requires Valid()
      modifies this, writer, file
      ensures Valid() && (writer == old(writer) || fresh(writer))
      ensures View() == HandleView(codec, old(View()), command, plan)
      ensures stop == command.Shutdown?
      ensures command.Buffer? <==> reply.None?
      ensures reply.Some? ==>
        (reply.value.Ok? <==>
          PersistSucceeds(old(View()).worker, FaultOf(codec, old(pendingEntries), old(writer.isOpen), plan)))
      ensures reply.Some? && reply.value.Err? ==>
        Reports(reply.value.error, old(pendingEntries), old(writer.isOpen), plan) && fresh(writer) && !writer.isOpen
    {
      stop, reply := false, None;
      match command {
        case Buffer(entries) =>
          pendingEntries := pendingEntries + entries;
        case Persisting(_) =>
          var result := PersistPending(codec, plan);
          reply := Some(result);
        case Flush(_) =>
          var result := PersistPending(codec, plan);
          reply := Some(result);
        case Shutdown(_) =>
          var result := PersistPending(codec, plan);
          stop, reply := true, Some(result);
      }
    }

    method Run(codec: Codec, commands: seq<Protocol.Command>, plans: nat -> IoPlan)
      requires Valid()
      modifies this, writer, file
      ensures Valid()
      ensures View() == RunView(codec, old(View()), commands, plans, 0)
    {
      var i := 0;
      while i < |commands|
        invariant 0 <= i <= |commands|
        invariant Valid() && (writer == old(writer) || fresh(writer))
        invariant RunView(codec, View(), commands[i..], plans, i) == RunView(codec, old(View()), commands, plans, 0)
      {
        assert commands[i..][1..] == commands[i + 1..];
        var stop, _ := Handle(codec, commands[i], plans(i));
        if stop { return; }
        i := i + 1;
      }
      var _ := PersistPending(codec, plans(i));
    }
  }

  /** The worker object does what the worker of the protocol does. */
  lemma WorkerFollowsProtocol(codec: Codec, s: Protocol.System, view: WorkerView, command: Protocol.Command,
                              plan: IoPlan)
    requires s.run.worker == view.worker
    ensures Protocol.Handle(codec, s, command, FaultOf(codec, view.worker.pending, view.isOpen, plan)).run.worker
            == HandleView(codec, view, command, plan).worker
  {
  }

  // ----- a whole life of the worker -----

  /** What a command is in the history of a run. */
  function EventOf(codec: Codec, view: WorkerView, command: Protocol.Command, plan: IoPlan): Event {
    match command
    case Buffer(entries) => BufferEvent(entries)
    case _ => PersistEvent(FaultOf(codec, view.worker.pending, view.isOpen, plan))
  }

  function EventsOf(codec: Codec, view: WorkerView, commands: seq<Protocol.Command>, plans: nat -> IoPlan, n: nat)
    : seq<Event>
    decreases |commands|
  {
    if commands == [] then [PersistEvent(FaultOf(codec, view.worker.pending, view.isOpen, plans(n)))]
    else
      [EventOf(codec, view, commands[0], plans(n))]
      + if commands[0].Shutdown? then []
        else EventsOf(codec, HandleView(codec, view, commands[0], plans(n)), commands[1..], plans, n + 1)
  }

  /** The entries of the commands up to the first shutdown. */
  function EntriesOf(commands: seq<Protocol.Command>): seq<SessionEntry> {
    if commands == [] || commands[0].Shutdown? then []
    else (if commands[0].Buffer? then commands[0].entries else []) + EntriesOf(commands[1..])
  }

  lemma OneMoreEvent(codec: Codec, prior: seq<Event>, event: Event)
    ensures RunAll(codec, prior + [event]) == Advance(codec, RunAll(codec, prior), event)
    ensures Accepted(prior + [event]) == Accepted(prior) + if event.BufferEvent? then event.entries else []
  {
    assert (prior + [event])[..|prior|] == prior;
  }

  lemma EventIsTheCommand(codec: Codec, run: DurabilityRuns.Run, view: WorkerView, command: Protocol.Command,
                          plan: IoPlan)
    requires run.worker == view.worker
    ensures Advance(codec, run, EventOf(codec, view, command, plan)).worker
            == HandleView(codec, view, command, plan).worker
    ensures EventOf(codec, view, command, plan).BufferEvent? <==> command.Buffer?
    ensures command.Buffer? ==> EventOf(codec, view, command, plan).entries == command.entries
  {
  }

  /** The first step of a life, and what is left of it. */
  lemma FirstEvent(codec: Codec, view: WorkerView, commands: seq<Protocol.Command>, plans: nat -> IoPlan, n: nat)
    returns (event: Event, rest: seq<Event>, entries: seq<SessionEntry>)
    ensures EventsOf(codec, view, commands, plans, n) == [event] + rest
    ensures entries == if event.BufferEvent? then event.entries else []
    ensures commands == [] || commands[0].Shutdown? ==> rest == [] && EntriesOf(commands) == [] == entries
    ensures commands != [] ==> event == EventOf(codec, view, commands[0], plans(n))
    ensures commands == [] ==> event == PersistEvent(FaultOf(codec, view.worker.pending, view.isOpen, plans(n)))
    ensures commands != [] && !commands[0].Shutdown? ==>
      var next := HandleView(codec, view, commands[0], plans(n));
      && rest == EventsOf(codec, next, commands[1..], plans, n + 1)
      && EntriesOf(commands) == entries + EntriesOf(commands[1..])
      && RunView(codec, view, commands, plans, n) == RunView(codec, next, commands[1..], plans, n + 1)
  {
    hide HandleView;
    hide FaultOf;
    if commands == [] {
      event, rest := PersistEvent(FaultOf(codec, view.worker.pending, view.isOpen, plans(n))), [];
    } else {
      event := EventOf(codec, view, commands[0], plans(n));
      rest := if commands[0].Shutdown? then []
        else EventsOf(codec, HandleView(codec, view, commands[0], plans(n)), commands[1..], plans, n + 1);
    }
    entries := if event.BufferEvent? then event.entries else [];
  }

  lemma LastEvent(codec: Codec, run: DurabilityRuns.Run, view: WorkerView, commands: seq<Protocol.Command>,
                  plans: nat -> IoPlan, n: nat, event: Event)
    requires run.worker == view.worker && (commands == [] || commands[0].Shutdown?)
    requires EventsOf(codec, view, commands, plans, n) == [event]
    ensures Advance(codec, run, event).worker == RunView(codec, view, commands, plans, n).worker
  {
    var command := if commands == [] then Protocol.Persisting(0) else commands[0];
    assert event == EventsOf(codec, view, commands, plans, n)[0] == EventOf(codec, view, command, plans(n));
    EventIsTheCommand(codec, run, view, command, plans(n));
  }

  lemma {:induction false} LifeIsARun(codec: Codec, prior: seq<Event>, view: WorkerView,
                                      commands: seq<Protocol.Command>, plans: nat -> IoPlan, n: nat)
    requires RunAll(codec, prior).worker == view.worker
    ensures var events := prior + EventsOf(codec, view, commands, plans, n);
      && RunAll(codec, events).worker == RunView(codec, view, commands, plans, n).worker
      && Accepted(events) == Accepted(prior) + EntriesOf(commands)
    decreases |commands|
  {
    hide *;
    var event, rest, entries := FirstEvent(codec, view, commands, plans, n);
    OneMoreEvent(codec, prior, event);
    if commands == [] || commands[0].Shutdown? {
      assert [event] + rest == [event];
      LastEvent(codec, RunAll(codec, prior), view, commands, plans, n, event);
    } else {
      var next := HandleView(codec, view, commands[0], plans(n));
      EventIsTheCommand(codec, RunAll(codec, prior), view, commands[0], plans(n));
      LifeIsARun(codec, prior + [event], next, commands[1..], plans, n + 1);
      assert prior + ([event] + rest) == (prior + [event]) + rest;
      AddInFront(Accepted(prior), entries, EntriesOf(commands[1..]));
    }
  }

  lemma AddInFront(a: seq<SessionEntry>, b: seq<SessionEntry>, c: seq<SessionEntry>)
    ensures (a + b) + c == a + (b + c)
  {
  }

  /** What a worker object leaves behind: if its last persist succeeded, the file loads as exactly the
      entries it was sent if and only if every first entry of a batch was read before the rest of it, in
      order if and only if none was read late, and always without anything but lost first entries. */
  lemma FileOfAWorkerLoads(codec: Codec, commands: seq<Protocol.Command>, plans: nat -> IoPlan)
    requires Faithful(codec) && DistinctIds(EntriesOf(commands))
    requires RunView(codec, WorkerView(Worker([], []), false), commands, plans, 0).worker.pending == []
    ensures var start := WorkerView(Worker([], []), false);
      var run := RunAll(codec, EventsOf(codec, start, commands, plans, 0));
      var loaded := Scan(codec, RunView(codec, start, commands, plans, 0).worker.log);
      && AllComplete(run.done) && loaded == Loaded(run.done)
      && (loaded == EntriesOf(commands) <==> AllRead(run.done))
      && (Subsequence(loaded, EntriesOf(commands)) <==> NoneLate(run.done))
      && Ids(loaded) == Ids(EntriesOf(commands)) - Lost(run.done)
      && DistinctIds(loaded)
  {
    var start := WorkerView(Worker([], []), false);
    var events := EventsOf(codec, start, commands, plans, 0);
    LifeIsARun(codec, [], start, commands, plans, 0);
    assert [] + events == events && Accepted([]) + EntriesOf(commands) == EntriesOf(commands);
    LoadAfterRun(codec, events);
  }

  /** The handle: it owns the sender until it is shut down. */
  class SessionRecorder {
    const capacity: nat
    var sender: Protocol.SenderState
    var queue: seq<Protocol.Command>
    var workerGone: bool

    constructor (capacity: nat)
      ensures this.capacity == capacity && sender == Protocol.Running && queue == [] && !workerGone
    {
      this.capacity := capacity;
      sender := Protocol.Running;
      queue := [];
      workerGone := false;
    }

    method BufferMany(entries: seq<SessionEntry>) returns (result: Result<(), Protocol.SendError>)
      modifies this`queue
      ensures result == (if entries == [] then Ok(())
                         else if sender != Protocol.Running || workerGone then Err(Protocol.ChannelClosed)
                         else if old(|queue|) >= capacity then Err(Protocol.QueueFull)
                         else Ok(()))
      ensures queue == if result.Ok? && entries != [] then old(queue) + [Protocol.Buffer(entries)] else old(queue)
    {
      if entries == [] { return Ok(()); }
      if sender != Protocol.Running { return Err(Protocol.ChannelClosed); }
      if workerGone { return Err(Protocol.ChannelClosed); }
      if |queue| >= capacity { return Err(Protocol.QueueFull); }
      queue := queue + [Protocol.Buffer(entries)];
      result := Ok(());
    }

    /** Takes the running state once; every later call finds the recorder shut down. */
    method TakeRunningState() returns (taken: bool)
      modifies this`sender
      ensures taken <==> old(sender) == Protocol.Running
      ensures sender == if taken then Protocol.Sending else old(sender)
    {
      taken := sender == Protocol.Running;
      if taken {
        sender := Protocol.Sending;
      }
    }
  }
}
