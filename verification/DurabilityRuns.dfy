/** Runs of the recorder worker, and exactly what a load reads back after each. */
module DurabilityRuns {
  import opened Jsonl
  import opened Numbers
  import opened JsonlLog
  import opened RecorderModel
  import opened Durability
  import opened BatchReadings

  datatype Event = BufferEvent(entries: seq<SessionEntry>) | PersistEvent(fault: WriteFault)

  /** A worker with the history of its run: everything accepted so far, how much of it was written by
      writes that succeeded, these writes as batches, and for the pending batch what the attempts at it
      have done. `torn` holds the first entries of all batches with an attempt that began behind a torn
      line while the entry was unread. */
  datatype Run = Run(
    worker: Worker, accepted: seq<SessionEntry>, committed: nat, done: seq<Batch>,
    reading: Reading, exposed: nat, fileTorn: bool, torn: set<string>)

  function InitialRun(): Run {
    Run(Worker([], []), [], 0, [], Unread, 0, false, {})
  }

  function TornAfter(fileTorn: bool, landing: Landing): bool {
    (fileTorn && landing.lines == 0) || landing.piece != []
  }

  /** The history of one attempt that lands at `landing`; `worker` is what it leaves. */
  function Attempt(run: Run, landing: Landing, worker: Worker): Run
    requires run.worker.pending != []
  {
    Run(worker, run.accepted, run.committed, run.done,
        ReadingAfter(run.reading, run.exposed, run.fileTorn, landing.lines), Max(run.exposed, landing.lines),
        TornAfter(run.fileTorn, landing),
        if run.fileTorn && run.reading.Unread? then run.torn + {run.worker.pending[0].id} else run.torn)
  }

  /** A successful attempt finishes its batch. */
  function Finish(run: Run, batch: seq<SessionEntry>): Run {
    run.(committed := |run.accepted|, done := run.done + [Batch(batch, run.reading)], reading := Unread, exposed := 0)
  }

  function Persist(codec: Codec, run: Run, fault: WriteFault): Run
    requires run.worker.pending != []
  {
    var pending := run.worker.pending;
    var landing := Landed(codec, pending, KeptBytes(codec, pending, fault));
    var attempted := Attempt(run, landing, PersistPending(codec, run.worker, fault));
    if fault.NoFault? then Finish(attempted, pending) else attempted
  }

  function Advance(codec: Codec, run: Run, event: Event): Run {
    match event
    case BufferEvent(entries) =>
      run.(worker := BufferEntries(run.worker, entries), accepted := run.accepted + entries)
    case PersistEvent(fault) => if run.worker.pending == [] then run else Persist(codec, run, fault)
  }

  function RunAll(codec: Codec, events: seq<Event>): Run {
    if events == [] then InitialRun()
    else Advance(codec, RunAll(codec, events[..|events| - 1]), events[|events| - 1])
  }

  function Accepted(events: seq<Event>): seq<SessionEntry> {
    if events == [] then []
    else
      var last := events[|events| - 1];
      Accepted(events[..|events| - 1]) + if last.BufferEvent? then last.entries else []
  }

  // ----- the invariant -----

  /** What is not committed is pending. */
  ghost predicate Conserved(run: Run) {
    run.committed <= |run.accepted| && run.worker.pending == run.accepted[run.committed..]
  }

  /** What is committed are the finished batches. */
  ghost predicate HistorySound(run: Run) {
    && AllComplete(run.done) && Covers(run.torn, run.done)
    && run.accepted == Written(run.done) + run.worker.pending
    && run.committed == |Written(run.done)|
    && run.exposed <= |run.worker.pending| && Fits(run.reading, run.exposed)
    && (run.worker.pending == [] ==> !run.fileTorn)
    && (run.worker.pending != [] && AtRisk(run) ==> run.worker.pending[0].id in run.torn)
  }

  /** The first entry of the pending batch was passed over. */
  predicate AtRisk(run: Run) { run.reading.Late? || (run.reading.Unread? && run.exposed > 0) }

  /** The complete lines of the file read as the finished batches and what is visible of the pending one. */
  ghost predicate Tracks(codec: Codec, run: Run, whole: seq<Byte>, pieces: seq<seq<Byte>>) {
    && Conserved(run)
    && HistorySound(run)
    && Shaped(codec, run.worker.log, whole, pieces)
    && run.fileTorn == (pieces != [])
    && Merge([], Records(codec, whole)) == Loaded(run.done) + Visible(run.worker.pending, run.reading, run.exposed)
  }

  // ----- one write -----

  /** `landing` is where the write with `fault` ends. */
  ghost predicate Lands(codec: Codec, run: Run, fault: WriteFault, landing: Landing) {
    && run.worker.pending != []
    && landing == Landed(codec, run.worker.pending, KeptBytes(codec, run.worker.pending, fault))
    && (fault.NoFault? ==> landing == Landing(|run.worker.pending|, []))
  }

  lemma FinishedBatch(done: seq<Batch>, batch: Batch)
    requires AllComplete(done) && Complete(batch)
    ensures AllComplete(done + [batch])
    ensures Written(done + [batch]) == Written(done) + batch.entries
    ensures Loaded(done + [batch]) == Loaded(done) + Visible(batch.entries, batch.reading, |batch.entries|)
  {
    assert (done + [batch])[..|done|] == done;
  }

  lemma AttemptKeepsHistory(run: Run, landing: Landing, worker: Worker)
    requires HistorySound(run) && run.worker.pending != [] && landing.lines <= |run.worker.pending|
    requires worker.pending == run.worker.pending
    ensures HistorySound(Attempt(run, landing, worker))
  {
  }

  lemma FinishKeepsHistory(codec: Codec, run: Run, fault: WriteFault, landing: Landing)
    requires HistorySound(run) && Lands(codec, run, fault, landing) && fault.NoFault?
    ensures HistorySound(Persist(codec, run, fault)) && Conserved(Persist(codec, run, fault))
  {
    var pending := run.worker.pending;
    var attempted := Attempt(run, landing, run.worker);
    AttemptKeepsHistory(run, landing, run.worker);
    var batch := Batch(pending, attempted.reading);
    assert attempted.exposed == |pending| && Complete(batch);
    FinishedBatch(run.done, batch);
    hide Written;
    hide Landed;
    var run' := Persist(codec, run, fault);
    assert run'.done == run.done + [batch] && run'.worker.pending == [];
    assert Written(run'.done) + [] == Written(run'.done);
    forall i | 0 <= i < |run'.done| && !run'.done[i].reading.Read?
      ensures run'.done[i].entries[0].id in run'.torn
    {
      assert i < |run.done| ==> run'.done[i] == run.done[i];
    }
  }

  lemma WriteKeepsHistory(codec: Codec, run: Run, fault: WriteFault, landing: Landing)
    requires HistorySound(run) && Conserved(run) && Lands(codec, run, fault, landing)
    ensures HistorySound(Persist(codec, run, fault)) && Conserved(Persist(codec, run, fault))
  {
    if fault.NoFault? {
      FinishKeepsHistory(codec, run, fault, landing);
    } else {
      AttemptKeepsHistory(run, landing, PersistPending(codec, run.worker, fault));
    }
  }

  /** The load grows as the history says. */
  lemma WriteLoads(codec: Codec, run: Run, fault: WriteFault, landing: Landing, loaded: seq<SessionEntry>)
    requires HistorySound(run) && Conserved(run) && DistinctIds(run.accepted) && Lands(codec, run, fault, landing)
    requires loaded == Loaded(run.done) + Visible(run.worker.pending, run.reading, run.exposed)
    ensures HistorySound(Persist(codec, run, fault))
    ensures var run' := Persist(codec, run, fault);
      Merge(loaded, Added(run.fileTorn, run.worker.pending, landing.lines))
      == Loaded(run'.done) + Visible(run'.worker.pending, run'.reading, run'.exposed)
  {
    hide Landed;
    hide Loaded;
    hide Merge;
    hide Ids;
    hide DistinctIds;
    WriteKeepsHistory(codec, run, fault, landing);
    DistinctBehindLoaded(run.done, run.worker.pending);
    AttemptReads(Loaded(run.done), run.worker.pending, run.reading, run.exposed, run.fileTorn, landing.lines);
    if fault.NoFault? {
      var reading := ReadingAfter(run.reading, run.exposed, run.fileTorn, landing.lines);
      FinishedLoads(run, run.worker.pending, reading, Persist(codec, run, fault));
    }
  }

  lemma FinishedLoads(run: Run, batch: seq<SessionEntry>, reading: Reading, run': Run)
    requires AllComplete(run.done) && batch != [] && Fits(reading, |batch|)
    requires run'.done == run.done + [Batch(batch, reading)]
    requires run'.worker.pending == [] && run'.reading == Unread && run'.exposed == 0
    ensures AllComplete(run'.done)
    ensures Loaded(run'.done) + Visible(run'.worker.pending, run'.reading, run'.exposed)
            == Loaded(run.done) + Visible(batch, reading, |batch|)
  {
    assert Complete(Batch(batch, reading));
    FinishedBatch(run.done, Batch(batch, reading));
    hide Loaded;
    assert Loaded(run'.done) + [] == Loaded(run'.done);
  }

  lemma DistinctBehindLoaded(done: seq<Batch>, pending: seq<SessionEntry>)
    requires AllComplete(done) && DistinctIds(Written(done) + pending)
    ensures DistinctIds(pending) && Ids(Loaded(done)) !! Ids(pending)
  {
    DistinctParts(Written(done), pending);
    LoadedIds(done);
  }

  // ----- every run -----

  lemma BufferTracks(codec: Codec, run: Run, entries: seq<SessionEntry>, whole: seq<Byte>, pieces: seq<seq<Byte>>)
    requires Tracks(codec, run, whole, pieces)
    ensures Tracks(codec, Advance(codec, run, BufferEvent(entries)), whole, pieces)
  {
    hide Merge;
    hide Records;
    hide Written;
    hide Loaded;
    assert (run.accepted + entries)[run.committed..] == run.accepted[run.committed..] + entries;
    assert (Written(run.done) + run.worker.pending) + entries == Written(run.done) + (run.worker.pending + entries);
    MoreBehind(run.worker.pending, entries, run.reading, run.exposed);
  }

  lemma MoreBehind(pending: seq<SessionEntry>, entries: seq<SessionEntry>, reading: Reading, exposed: nat)
    requires exposed <= |pending| && Fits(reading, exposed)
    ensures Visible(pending + entries, reading, exposed) == Visible(pending, reading, exposed)
  {
    if reading.Late? {
      assert (pending + entries)[1..reading.behind] == pending[1..reading.behind];
      assert (pending + entries)[reading.behind..exposed] == pending[reading.behind..exposed];
    }
  }

  lemma PersistTracks(codec: Codec, run: Run, fault: WriteFault, whole: seq<Byte>, pieces: seq<seq<Byte>>)
    returns (whole': seq<Byte>, pieces': seq<seq<Byte>>)
    requires Faithful(codec) && DistinctIds(run.accepted) && run.worker.pending != []
    requires Tracks(codec, run, whole, pieces)
    ensures Tracks(codec, Persist(codec, run, fault), whole', pieces')
  {
    var pending := run.worker.pending;
    var kept := KeptBytes(codec, pending, fault);
    var landing := Landed(codec, pending, kept);
    if fault.NoFault? { LandedWhole(codec, pending); }
    whole' := AppendLanding(codec, run.worker.log, whole, pieces, pending, kept);
    pieces' := PiecesAfter(pieces, landing);
    var added := Added(pieces != [], pending, landing.lines);
    hide Merge;
    hide Landed;
    hide Records;
    MergeAppend([], Records(codec, whole), added);
    WriteKeepsHistory(codec, run, fault, landing);
    WriteLoads(codec, run, fault, landing, Merge([], Records(codec, whole)));
    assert (pieces' != []) == TornAfter(pieces != [], landing);
  }

  lemma DistinctPrefix(entries: seq<SessionEntry>, more: seq<SessionEntry>)
    requires DistinctIds(entries + more)
    ensures DistinctIds(entries)
  {
    forall i, j | 0 <= i < j < |entries|
      ensures IdsDiffer(entries, i, j)
    {
      assert IdsDiffer(entries + more, i, j);
    }
  }

  lemma {:induction false} RunTracks(codec: Codec, events: seq<Event>)
    returns (whole: seq<Byte>, pieces: seq<seq<Byte>>)
    requires Faithful(codec) && DistinctIds(Accepted(events))
    ensures RunAll(codec, events).accepted == Accepted(events)
    ensures Tracks(codec, RunAll(codec, events), whole, pieces)
  {
    if events == [] {
      whole, pieces := [], [];
      assert [] + Join([]) == [];
    } else {
      var before, last := events[..|events| - 1], events[|events| - 1];
      var run := RunAll(codec, before);
      if last.BufferEvent? {
        DistinctPrefix(Accepted(before), last.entries);
        whole, pieces := RunTracks(codec, before);
        BufferTracks(codec, run, last.entries, whole, pieces);
      } else {
        assert Accepted(events) == Accepted(before);
        whole, pieces := RunTracks(codec, before);
        if run.worker.pending != [] {
          whole, pieces := PersistTracks(codec, run, last.fault, whole, pieces);
        }
      }
    }
  }

  lemma {:induction false} MergeIsDistinct(loaded: seq<SessionEntry>, records: seq<SessionEntry>)
    requires DistinctIds(loaded)
    ensures DistinctIds(Merge(loaded, records))
    decreases |records|
  {
    if records != [] {
      var first := records[0];
      if !HasId(loaded, first.id) {
        forall i, j | 0 <= i < j < |loaded| + 1
          ensures IdsDiffer(loaded + [first], i, j)
        {
          if j < |loaded| {
            assert IdsDiffer(loaded, i, j);
          } else {
            IdsMeaning(loaded, first.id);
          }
        }
      }
      MergeIsDistinct(if HasId(loaded, first.id) then loaded else loaded + [first], records[1..]);
    }
  }

  /** Whatever the file contains, no id is loaded twice. */
  lemma ScanIsDistinct(codec: Codec, bytes: seq<Byte>)
    ensures DistinctIds(Scan(codec, bytes))
  {
    MergeIsDistinct([], Records(codec, bytes));
  }

  /** Exactly what is loaded, and when that is everything, everything in order, or everything in any
      order. After any run that ends with nothing pending, the load is every batch as its reading says.
      It is exactly what was accepted if and only if every first entry was read before the rest of its
      batch, keeps the order of acceptance if and only if none was read late, and misses exactly those
      first entries that no attempt with a complete line wrote at a line end. */
  lemma LoadAfterRun(codec: Codec, events: seq<Event>)
    requires Faithful(codec) && DistinctIds(Accepted(events))
    requires RunAll(codec, events).worker.pending == []
    ensures var run := RunAll(codec, events);
      var loaded := Scan(codec, run.worker.log);
      && run.accepted == Accepted(events) == Written(run.done) && run.committed == |run.accepted|
      && AllComplete(run.done) && loaded == Loaded(run.done)
      && (loaded == Accepted(events) <==> AllRead(run.done))
      && (Subsequence(loaded, Accepted(events)) <==> NoneLate(run.done))
      && Ids(loaded) == Ids(Accepted(events)) - Lost(run.done)
      && (Ids(loaded) == Ids(Accepted(events)) <==> Lost(run.done) == {})
      && Without(loaded, run.torn) == Without(Accepted(events), run.torn)
      && DistinctIds(loaded)
  {
    var run := RunAll(codec, events);
    var whole, pieces := RunTracks(codec, events);
    assert pieces == [] && run.worker.log == whole;
    assert Written(run.done) + [] == Written(run.done) && Loaded(run.done) + [] == Loaded(run.done);
    hide *;
    LoadedExactly(run.done);
    LoadedIds(run.done);
    LoadedButCovered(run.done, run.torn);
    ScanIsDistinct(codec, run.worker.log);
  }

  /** If no attempt began behind a torn line while the first entry of its batch was unread, nothing is lost
      or moved. */
  lemma NoTornBatchLoadsExactly(codec: Codec, events: seq<Event>)
    requires Faithful(codec) && DistinctIds(Accepted(events))
    requires RunAll(codec, events).worker.pending == [] && RunAll(codec, events).torn == {}
    ensures Scan(codec, RunAll(codec, events).worker.log) == Accepted(events)
  {
    LoadAfterRun(codec, events);
    WithoutNothing(Scan(codec, RunAll(codec, events).worker.log));
    WithoutNothing(Accepted(events));
  }

  /** Retries can also reorder: one byte of the batch, then the whole batch without a final sync, then
      success. The second entry is read before the first. */
  function ReorderingRun(codec: Codec, first: SessionEntry, second: SessionEntry): seq<Event> {
    [BufferEvent([first, second]), PersistEvent(Fault(1)),
     PersistEvent(Fault(|BatchBytes(codec, [first, second])|)), PersistEvent(NoFault)]
  }

  /** A batch retried behind a torn line, then written once more. */
  lemma RecordsOfRetries(codec: Codec, batch: seq<SessionEntry>, torn: seq<Byte>)
    requires Faithful(codec) && batch != [] && IsFragment(codec, torn)
    ensures var bytes := BatchBytes(codec, batch);
      Records(codec, (torn + bytes) + bytes) == batch[1..] + batch
  {
    var bytes := BatchBytes(codec, batch);
    BatchEndsLine(codec, batch);
    EndsLineAppend(torn, bytes);
    RecordsAppend(codec, torn + bytes, bytes);
    RecordsOfBatch(codec, batch);
    JoinSnoc([], torn);
    assert [] + [torn] == [torn] && [] + torn == torn;
    RecordsBehind(codec, [torn], batch);
  }

  lemma MergeOfRetries(first: SessionEntry, second: SessionEntry)
    requires first.id != second.id
    ensures Merge([], [second] + [first, second]) == [second, first]
  {
    MergeOne([], second, [first, second]);
    IdsSnoc([], second);
    assert [] + [second] == [second];
    assert [first, second] == [first] + [second];
    MergeOne([second], first, [second]);
    IdsSnoc([second], first);
    assert [second] + [first] == [second, first];
    MergeOne([second, first], second, []);
    assert [second] + [] == [second];
  }

  lemma WorkerOfReorderingRun(codec: Codec, first: SessionEntry, second: SessionEntry)
    requires |codec.serialize(first)| >= 1
    ensures var bytes := BatchBytes(codec, [first, second]);
      && 1 <= |bytes| && bytes[..1] == codec.serialize(first)[..1]
      && RunAll(codec, ReorderingRun(codec, first, second)).worker == Worker((bytes[..1] + bytes) + bytes, [])
  {
    hide RunAll;
    hide Advance;
    hide BatchBytes;
    var events, batch := ReorderingRun(codec, first, second), [first, second];
    var bytes := BatchBytes(codec, batch);
    BatchStarts(codec, first, second);
    FourSteps(codec, events);
    var run1 := Advance(codec, InitialRun(), events[0]);
    BufferedFirst(codec, batch);
    WorkerAfterPersist(codec, run1, Fault(1));
    var run2 := Advance(codec, run1, events[1]);
    assert run2.worker == Worker(bytes[..1], batch) by { assert [] + bytes[..1] == bytes[..1]; }
    WorkerAfterPersist(codec, run2, Fault(|bytes|));
    assert bytes[..|bytes|] == bytes;
    WorkerAfterPersist(codec, Advance(codec, run2, events[2]), NoFault);
  }

  lemma BatchStarts(codec: Codec, first: SessionEntry, second: SessionEntry)
    requires |codec.serialize(first)| >= 1
    ensures var bytes := BatchBytes(codec, [first, second]);
      1 <= |bytes| && bytes[..1] == codec.serialize(first)[..1]
  {
    assert BatchBytes(codec, [first, second]) == EntryBytes(codec, first) + BatchBytes(codec, [second]);
  }

  lemma BufferedFirst(codec: Codec, batch: seq<SessionEntry>)
    ensures Advance(codec, InitialRun(), BufferEvent(batch)).worker == Worker([], batch)
  {
    assert [] + batch == batch;
  }

  lemma WorkerAfterPersist(codec: Codec, run: Run, fault: WriteFault)
    requires run.worker.pending != []
    ensures Advance(codec, run, PersistEvent(fault)).worker == PersistPending(codec, run.worker, fault)
  {
    hide PersistPending;
  }

  lemma RetriesCanReorder(codec: Codec, first: SessionEntry, second: SessionEntry)
    requires Faithful(codec) && first.id != second.id
    ensures var run := RunAll(codec, ReorderingRun(codec, first, second));
      && run.worker.pending == []
      && Scan(codec, run.worker.log) == [second, first]
  {
    var batch := [first, second];
    var torn := BatchBytes(codec, batch)[..1];
    assert RoundTrips(codec, first);
    WorkerOfReorderingRun(codec, first, second);
    assert IsFragment(codec, torn) by { assert torn <= codec.serialize(first); }
    RecordsOfRetries(codec, batch, torn);
    assert batch[1..] == [second];
    MergeOfRetries(first, second);
  }

  lemma FourSteps(codec: Codec, events: seq<Event>)
    requires |events| == 4
    ensures RunAll(codec, events)
            == Advance(codec, Advance(codec, Advance(codec, Advance(codec, InitialRun(),
                 events[0]), events[1]), events[2]), events[3])
  {
    assert events[..3][..2] == events[..2] && events[..2][..1] == events[..1] && events[..1][..0] == [];
    assert RunAll(codec, events[..1]) == Advance(codec, InitialRun(), events[0]);
    assert RunAll(codec, events[..2]) == Advance(codec, RunAll(codec, events[..1]), events[1]);
    assert RunAll(codec, events[..3]) == Advance(codec, RunAll(codec, events[..2]), events[2]);
  }
}
