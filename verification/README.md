# Verified model of the hunea terminal client

This project models the algorithms and state machines at the core of the terminal AI client and proves
what they are for. It is plain Dafny; `dafny verify dfyconfig.toml` checks all of it.

**Drawing a frame** (`TerminalScreen`, `TerminalGrid`, `TerminalStyle`, `TerminalBlinks`, `TerminalSurface`). A
terminal shows lines of narrow columns, wide glyphs with their hidden tails, and torn halves: printing or erasing over
one half of a wide glyph leaves the other half torn, and nothing is known about what a torn column looks like. The
buffer diff turns two frames into clears and puts. Running its commands on a terminal that shows the previous frame
makes it show the current one, whatever wide glyphs were replaced, shifted by one column or cut at the clear point.
The flush leaves out cursor moves and writes only changes of style; the written output still draws what the commands
draw, from any cursor position, and returns the terminal to the default style. Attributes are as in section 8.3.117 of
ECMA-48: one sequence takes back both intensities, one both blinks. A frame comes out right if and only if no cell
keeps one of two blinks of the cell printed before it.

**Recording a session** (`Jsonl`, `JsonlLog`, `JsonlCodec`, `RecorderModel`, `Durability`, `BatchReadings`,
`DurabilityRuns`, `RecorderProtocol`, `RecorderProgress`, `Recorder`). Callers put commands into a bounded queue; one
worker appends batches to a JSONL log and retries the whole pending batch after a failure; a failed write leaves any
prefix of its bytes. The loader skips corrupt lines and keeps the first record of every id. JSON is a codec that
round-trips, writes one line, and never parses torn fragments glued to one another; `JsonlCodec` shows that such a
codec exists. Over every run the project states exactly what a load returns. Only the first entry of a batch can be
missed or moved: it is `Unread` if no attempt with a complete line began at a line end, `Late` if such an attempt came
only after other entries of the batch had been read, and `Read` otherwise. The load is everything in order if and only
if all are `Read`, in order if and only if none is `Late`, and misses exactly the `Unread` ones. Accepted entries are
conserved through queue, worker and file, every request gets one reply, and an Ok reply is durable.

**Owning the terminal** (`TerminalModes`, `TerminalSafety`, `TerminalActivation`, `TerminalCalls`,
`TerminalLifecycle`, `TerminalOwnership`, `TerminalGuard`). Every mode switched on leaves an obligation to switch it
off. Operations fail at will, with or without having reached the terminal. Obligations cover every mode that may be
on, cleanup settles them once each, every call makes exactly the calls it should up to the first failure, and the
claim registry gives all obligations to one thread at a time, over all interleavings.

**Matching and ordering** (`Folding`, `Kmp`, `TextSearch`, `SearchHighlight`, `TextOrder`, `NaturalSort`,
`LetterCase`). The case-insensitive search in its byte, folded and naive forms, exactly when filter and highlight
agree, over which characters the greedy subsequence search misses nothing, highlighted spans, and the natural text
order; the case of ASCII letters, and nothing else in ASCII, makes no difference to any of them. The Unicode
tables are a parameter: a function from a character to its lowercase characters.

**Dates in file names** (`Calendar`, `SessionFilename`, `SessionNames`). The closed form for civil dates is the
Gregorian calendar. Civil time and id can be read back from the name of a session file, and names sort like ids,
except across the year 10000.

**Sharing out tokens** (`Apportionment`, `ApportionmentLaws`, `ContextBudget`). Largest-remainder apportionment
conserves the total, meets quota and is fair; each law with the exact condition under which saturated products break
it.

**Lists and caches** (`ListSelection`, `FullscreenSearchList`, `BoundedLruCache`). Paging arithmetic, a selection that
follows its row through filtering, and a cache that holds exactly the most recently touched keys.

`Numbers` holds the machine words and the arithmetic that several modules use, `Wrappers` optional values and results.

Places where the code does less than one might expect, each with its exact condition and a concrete input:

- Taking back one of two blinks takes back both (`FadedFrameIsRight`; `BlinkGetsLost`).
- Retries after a torn first line can lose its entry or move it (`LoadAfterRun`; `RetriesCanReorder`).
- After a failed cleanup an activation can return Ok with a mode off (`ActivationTurnsModesOn`; `SkippedModeStaysOff`).
- A query that is ASCII does not match text whose every occurrence touches a character outside ASCII, which the
  highlight marks (`AsciiFilterAgreesExactly`; `KelvinIsHighlightedButFiltered`).
- The greedy subsequence search misses matches if and only if the fold of one character is the beginning of the fold
  of another (`GreedyIsCompleteExactly`; `GreedyCanMiss`).
- Names of sessions from the year 10000 on sort before earlier ones (`NamesSortLikeIds`;
  `YearTenThousandSortsBeforeItsEve`).
- Saturated products lose tokens when the spare loop runs out of weights with tokens left over (`SharesSumToTotal`;
  `SaturationLosesTokens`), and can give a larger weight less (`SharesAreFair`; `SaturationCanBeUnfair`).
- A calibrated snapshot without segments reports tokens that no segment has (`FinishedSnapshotConserves`;
  `EmptySnapshotReportsTokens`).
- A visible offset beyond the page size selects a row of a later page (`VisibleIndexOnPage`;
  `VisibleIndexLeavesThePage`).

## Model

| member | source | states |
|---|---|---|
| TerminalGrid.DiffTerminalBuffers | crates/terminal-ui/src/terminal_grid.rs:21-94 | For all well-formed frames of one size: the commands, run on a screen that shows the previous frame, make it show the current one. Every command is justified by something the screen may not show yet, and every glyph that differs, was half covered or asks to be drawn always is put, unless nothing from there on has to be drawn; clears come before puts, each group in reading order. |
| TerminalGrid.RowClearFrom | crates/terminal-ui/src/terminal_grid.rs:96-112 | The returned column is the end of the last glyph that has to be drawn: everything behind it is a plain blank in the trailing background, and no wide glyph reaches across it. |
| TerminalGrid.PreviousTailNeedsClear | crates/terminal-ui/src/terminal_grid.rs:114-131 | True exactly when something behind the clear point shows against the background, or a wide glyph straddles the clear point. |
| TerminalGrid.EmitClears | crates/terminal-ui/src/terminal_grid.rs:28-52 | After the clears every row shows the current frame from its clear point on and keeps the previous one before it, up to a glyph cut there. |
| TerminalGrid.EmitPuts | crates/terminal-ui/src/terminal_grid.rs:54-91 | The cell loop with its invalidated and skip counters turns cleared rows into the current frame. |
| TerminalGrid.StepWithPut | crates/terminal-ui/src/terminal_grid.rs:57-91 | A put moves the settled frontier behind its glyph; the only column it can tear is the tail of a previous wide glyph right behind it. |
| TerminalGrid.StepWithoutPut | crates/terminal-ui/src/terminal_grid.rs:57-91 | A column for which no put is due already shows the current frame. |
| TerminalGrid.CarryStep | crates/terminal-ui/src/terminal_grid.rs:87-90 | The two counters say at every column whether it is hidden behind a current glyph and whether a previous wide glyph lost its left half. |
| TerminalGrid.ClearedRowIsReady | crates/terminal-ui/src/terminal_grid.rs:42-51 | Erasing from the clear point leaves the row ready for the cell loop, even through the middle of a wide glyph. |
| TerminalGrid.UnclearedRowIsReady | crates/terminal-ui/src/terminal_grid.rs:36-51 | Where no clear is needed the row is ready as it is. |
| TerminalGrid.UnchangedFrameNeedsNoCommand | crates/terminal-ui/src/terminal_grid.rs:21-94 | For an unchanged frame no command is justified, so none is emitted, unless a cell asks to be drawn always. |
| TerminalScreen.PrefillIsInvisible | crates/terminal-ui/src/terminal_grid.rs:149-182 | Printing spaces under a wide glyph before the glyph leaves the same line as printing the glyph alone. |
| TerminalSurface.FlushScreen | crates/terminal-ui/src/runner/terminal_surface.rs:135-139 | One frame end to end: the written output makes a terminal that shows the previous frame in the default style show the current one, wherever its cursor was left, if and only if no put of the diff drops one of two blinks of the put before it, so always if no cell blinks both ways; the terminal is in the default style again. |
| TerminalSurface.DrawTerminalCommands | crates/terminal-ui/src/runner/terminal_surface.rs:147-197 | Leaving out cursor moves and unchanged styles draws the same screen as running the commands without the blinks that get lost, and ends in the default style, if no command misplaces the cursor for the next. |
| TerminalSurface.DiffNeverMisplacesCursor | crates/terminal-ui/src/runner/terminal_surface.rs:163-166 | The commands of a diff never do: a command one column right of its predecessor follows a put of one column. |
| TerminalSurface.PrintPrefill | crates/terminal-ui/src/runner/terminal_surface.rs:176-184 | Spaces printed chunk by chunk are the spaces printed at once, with the cursor back in front. |
| TerminalStyle.TerminalStyleState.QueueCell | crates/terminal-ui/src/runner/terminal_surface.rs:219-250 | Sequences for what differs from the style written last leave the terminal in the style of the cell, less exactly the blinks that get lost. |
| TerminalStyle.QueueModifierDiff | crates/terminal-ui/src/runner/terminal_surface.rs:287-344 | Attributes taken back, intensities restored, attributes added: from any attributes to any others, exactly the wanted ones but a kept blink whose fellow was taken back. |
| TerminalBlinks.FadesExactly | crates/terminal-ui/src/runner/terminal_surface.rs:287-344 | Over any commands every put is printed in the style of its cell if and only if no put drops one of two blinks of the put before it. |
| TerminalBlinks.FadedFrameIsRight | crates/terminal-ui/src/runner/terminal_surface.rs:135-139 | For the commands of a diff this decides whether the screen shows the current frame: a put printed without its blink is not repaired by any later command. |
| TerminalBlinks.OneWayBlinksAreKept | crates/terminal-ui/src/runner/terminal_surface.rs:135-139 | No diff drops a blink if no cell of the current frame blinks both ways. |
| TerminalBlinks.BlinkGetsLost | crates/terminal-ui/src/runner/terminal_surface.rs:306-308 | A letter that blinks both ways and one that blinks rapidly behind it: the second is printed without blinking. |
| DurabilityRuns.LoadAfterRun | crates/session-store/src/recorder.rs:248-263 | For every run of buffers and persists with any failures that ends with nothing pending: the load is exactly what the readings of the batches say; it is the accepted entries in order if and only if every first entry was read in time, a subsequence of them if and only if none was read late, and their ids less exactly the unread first entries; it never has an id twice, and agrees with the accepted entries up to those that were ever behind a torn line. |
| DurabilityRuns.NoTornBatchLoadsExactly | crates/session-store/src/jsonl.rs:28-51 | If no attempt began behind a torn line while the first entry of its batch was unread, every entry is loaded once and in order. |
| DurabilityRuns.RetriesCanReorder | crates/session-store/src/recorder.rs:248-263 | A concrete run that ends in success and loads two entries in the wrong order. |
| DurabilityRuns.ScanIsDistinct | crates/session-store/src/jsonl.rs:104-176 | Whatever the file contains, no id is loaded twice. |
| DurabilityRuns.RunTracks | crates/session-store/src/recorder.rs:248-263 | After every run the file is complete lines followed by fragments of one torn line, and reads as the finished batches and the reading of the pending one say. |
| BatchReadings.AttemptReads | crates/session-store/src/recorder.rs:248-263 | One attempt, at a line end or behind a torn line, with any number of complete lines: the load grows as the reading of the batch changes, and by nothing else. |
| BatchReadings.LoadedExactly | crates/session-store/src/recorder.rs:248-263 | Over all finished batches: the load is everything in order exactly if every first entry was read in time, keeps the order exactly if none was read late, and has every id exactly if none is unread. |
| BatchReadings.LoadedIds | crates/session-store/src/recorder.rs:248-263 | The ids loaded are the ids written without the unread first entries. |
| BatchReadings.LoadedInOrder | crates/session-store/src/recorder.rs:248-263 | With no first entry read late the load is the entries written, in order, without the unread ones. |
| JsonlLog.AppendLanding | crates/session-store/src/jsonl.rs:28-51 | A batch cut anywhere adds the records of its complete lines, less the first if the file was torn. |
| JsonlLog.GluedEntryIsLost | crates/session-store/src/jsonl.rs:148-169 | An entry written right behind a torn line cannot be read there, and nothing else is affected. |
| JsonlCodec.FaithfulCodecExists | crates/session-store/src/jsonl.rs:28-51 | The trust in the entry format is consistent: some codec satisfies it. |
| Jsonl.ScanEntries | crates/session-store/src/jsonl.rs:104-176 | Whatever reads and visits fail: Ok exactly if the file opens, every call that reads a line succeeds and every visit does; then the entries visited are the first record of every id in file order, corrupt lines skipped, and the ids are exactly theirs. On an error the entries visited are a beginning of these, and the error is that of the file or of the next visit. |
| Jsonl.Load | crates/session-store/src/jsonl.rs:84-94 | Ok with the scanned entries, all of whose parents exist, or the error of the first dangling parent; an input or output error exactly if the file cannot be opened or read. |
| Jsonl.LineEndings | crates/session-store/src/jsonl.rs:104-176 | A line ends at a line feed or at a carriage return and a line feed, the last one possibly at neither; the rest is its entry if it parses, and nothing otherwise. |
| RecorderProtocol.ProtocolIsSound | crates/session-store/src/recorder.rs:58-118 | Every reachable state of callers, queue and worker keeps the invariant of queue, tickets, sender and replies. |
| RecorderProtocol.AcceptedIsConserved | crates/session-store/src/recorder.rs:67-118 | Committed, then pending, then queued entries are at every step the accepted entries in acceptance order, within the queue's capacity. |
| RecorderProtocol.OkReplyIsDurable | crates/session-store/src/recorder.rs:231-263 | After an Ok reply to persist, flush or shutdown, a load at any later time has everything accepted before the command was sent but unread first entries, in order if none was read late, and in order apart from entries that were ever behind a torn line in any case; an Ok shutdown committed everything accepted. |
| RecorderProtocol.CommittedIsLoaded | crates/session-store/src/recorder.rs:248-263 | The same for any beginning of the committed entries, at any point of any run. |
| RecorderProgress.NoRequestIsForgotten | crates/session-store/src/recorder.rs:80-118 | Over every run: a persist, flush or shutdown without a reply is still in the queue. |
| RecorderProgress.RepliesAreFinal | crates/session-store/src/recorder.rs:80-118 | No step changes a reply that was given, or takes a request back. |
| RecorderProgress.QueueDrains | crates/session-store/src/recorder.rs:231-282 | As many steps of the worker as there are commands empty the queue and answer every request, without failed writes all with Ok. |
| RecorderProgress.PersistedWhenAsked | crates/session-store/src/recorder.rs:67-118 | Entries buffered by a running recorder with room, and a persist or flush behind them: without failed writes it is answered Ok when the worker gets there, and every accepted entry, these last, is committed. |
| RecorderProgress.ShutdownCommitsAll | crates/session-store/src/recorder.rs:90-118 | A shutdown of a running recorder with room: without failed writes the worker stops, has replied Ok, and has committed everything accepted. |
| RecorderProgress.DroppedSenderCommitsAll | crates/session-store/src/recorder.rs:270-282 | A sender dropped without a shutdown: the worker empties the queue and persists once more, and if that succeeds everything accepted is committed, whatever failed before. |
| Recorder.JsonlWriter.WriteBatch | crates/session-store/src/jsonl.rs:28-77 | The lazily opened writer appends the whole batch on success and a prefix of its bytes otherwise; serialization, write and sync may each fail, and the error says which did and for which entry. |
| Recorder.WhatAFailureLeaves | crates/session-store/src/jsonl.rs:28-77 | A write succeeds exactly if the file is open or opens and nothing fails; a failed one leaves the first bytes, as many as got through, of the entries in front of the failure, and of the failing one if it was serialized. |
| Recorder.RecorderWorker.PersistPending | crates/session-store/src/recorder.rs:248-267 | Pending entries are cleared on success and kept on failure; then the error of the attempt is returned and the writer is a new one, not open yet. |
| Recorder.RecorderWorker.Handle | crates/session-store/src/recorder.rs:231-246 | One command: buffers get no reply, the others the result of a persist, a failed one its error with a new writer behind it, and only shutdown stops the worker. |
| Recorder.RecorderWorker.Run | crates/session-store/src/recorder.rs:270-282 | The receive loop handles commands up to a shutdown, or to the end of the channel and one last persist. |
| Recorder.WorkerFollowsProtocol | crates/session-store/src/recorder.rs:231-263 | On every command the worker object does what the worker of the protocol does. |
| Recorder.FileOfAWorkerLoads | crates/session-store/src/recorder.rs:270-282 | For every list of commands and every way their writes fail, a worker whose last persist succeeded leaves a file that loads as the readings of its batches say: all entries it was sent, in order, if and only if every first entry was read in time, in order if and only if none was read late, and all but the unread first entries. |
| Recorder.LifeIsARun | crates/session-store/src/recorder.rs:231-282 | The worker's receive loop is a run of buffers and persists, with the same file and pending entries and the same accepted entries. |
| Recorder.SessionRecorder.BufferMany | crates/session-store/src/recorder.rs:67-78 | Nothing is sent for no entries; otherwise the batch is queued whole, or refused: as closed after a shutdown or once the worker is gone, and as full only otherwise. |
| Recorder.SessionRecorder.TakeRunningState | crates/session-store/src/recorder.rs:162-170 | Only the first shutdown takes the sender. |
| TerminalSafety.RestoreAllSucceedsMeansOff | crates/terminal-ui/src/terminal_lifecycle.rs:208-455 | From all modes off, after any actions with any failures and partial effects, a restore-all that returns Ok leaves every mode off and nothing owed. |
| TerminalSafety.RunIsSafe | crates/terminal-ui/src/terminal_lifecycle.rs:208-455 | Over any run every mode that may be on has its inverse recorded. |
| TerminalSafety.RestorePass | crates/terminal-ui/src/terminal_lifecycle.rs:281-346 | A cleanup pass performs the inverse of exactly what is owed, once each in a fixed order despite errors, leaves owed exactly what failed, and reports the first error. |
| TerminalSafety.RepeatedCleanupSettlesOnce | crates/terminal-ui/src/terminal_lifecycle.rs:281-346 | Over any number of passes no inverse is performed again after it succeeded. |
| TerminalSafety.RestoreOrderIsComplete | crates/terminal-ui/src/terminal_lifecycle.rs:281-346 | The cleanup order names every mode once. |
| TerminalSafety.CleanupAddsNothing | crates/terminal-ui/src/terminal_lifecycle.rs:272-303 | Restoring and showing the cursor never add an obligation. |
| TerminalActivation.ActivationTurnsModesOn | crates/terminal-ui/src/terminal_lifecycle.rs:209-229 | An activation that returns Ok has on exactly those of its four modes that were not owed before or were on already, alternate scroll off, and the cursor untouched. |
| TerminalActivation.CleanActivationTurnsModesOn | crates/terminal-ui/src/terminal_lifecycle.rs:209-229 | With nothing owed before, Ok means all four modes are on and no others but keyboard enhancement. |
| TerminalActivation.CleanupSettlesAll | crates/terminal-ui/src/terminal_lifecycle.rs:281-294 | From any safe state, whatever fails: a cleanup returns Ok exactly if it leaves nothing owed, and then every mode is off. |
| TerminalActivation.FailedActivationCleansUp | crates/terminal-ui/src/terminal_lifecycle.rs:224-227 | A failed activation reports the step that failed, has done a full cleanup, and leaves nothing owed exactly if that cleanup succeeded; then every mode is off. |
| TerminalActivation.FailedMinimalActivationCleansUp | crates/terminal-ui/src/terminal_lifecycle.rs:231-244 | The same for the minimal activation. |
| TerminalActivation.SkippedModeStaysOff | crates/terminal-ui/src/terminal_lifecycle.rs:348-357 | A concrete run in which a second activation returns Ok with raw mode off. |
| TerminalActivation.MouseModeIsApplied | crates/terminal-ui/src/terminal_lifecycle.rs:246-265 | A mouse-mode switch that returns Ok puts both modes where they were asked to be, up to skipped obligations, and touches no other. |
| TerminalCalls.ActivationPerforms | crates/terminal-ui/src/terminal_lifecycle.rs:209-229 | Call by call: raw mode and alternate screen where not owed, alternate scroll off in any case, mouse capture and bracketed paste where not owed, then the keyboard; a failure stops there, is reported, and is followed by the inverses of all that is owed. |
| TerminalCalls.KeyboardIsPushed | crates/terminal-ui/src/terminal_lifecycle.rs:359-377 | Neither suppressed nor owed, the keyboard enhancement is called once; it is on exactly if the call reached the terminal or it was on before, and owed exactly unless it is unsupported. Otherwise nothing changes. |
| TerminalCalls.NormalStart | crates/terminal-ui/src/terminal_lifecycle.rs:209-229 | With nothing owed, nothing suppressed and no failure: exactly the six calls of an activation, its five modes on and no other, and exactly their inverses owed. |
| TerminalCalls.MinimalActivationPerforms | crates/terminal-ui/src/terminal_lifecycle.rs:231-244 | Raw mode and alternate screen where not owed, and both on after Ok with nothing else touched; after a failure the inverses of all that is owed. |
| TerminalCalls.MouseModePerforms | crates/terminal-ui/src/terminal_lifecycle.rs:246-265 | Of capture and scroll the one not wanted and owed is switched off first, then the wanted ones not owed on, up to the first failure, which is reported. |
| TerminalCalls.HideCursorPerforms | crates/terminal-ui/src/terminal_lifecycle.rs:267-270 | The cursor is hidden by one call whatever is owed, is hidden after Ok, and showing it is owed in any case. |
| TerminalCalls.CleanupReports | crates/terminal-ui/src/terminal_lifecycle.rs:281-346 | A cleanup of all modes, or of all but the cursor, tries every inverse owed in order, returns Ok exactly if all succeed and otherwise the error of the first that failed, and still owes exactly what failed. |
| TerminalCalls.FullCleanupCalls | crates/terminal-ui/src/terminal_lifecycle.rs:281-346 | With everything owed the seven inverses go from the cursor to raw mode, in the literal order of the source. |
| TerminalCalls.RestoreModesSettles | crates/terminal-ui/src/terminal_lifecycle.rs:296-346 | An Ok restore of the modes leaves all of them off and the debt of the cursor as it was. |
| TerminalLifecycle.TerminalLifecycleState.HasRestoreObligations | crates/terminal-ui/src/terminal_lifecycle.rs:197-205 | True exactly when some inverse is owed. |
| TerminalLifecycle.TerminalLifecycleState.ActivateMain | crates/terminal-ui/src/terminal_lifecycle.rs:209-229 | The object does what the specified activation does: modes in order, the keyboard last, full cleanup and the first error on failure; `ActivationPerforms` and `NormalStart` say which calls these are. |
| TerminalLifecycle.TerminalLifecycleState.ActivateMinimal | crates/terminal-ui/src/terminal_lifecycle.rs:231-244 | Likewise for the minimal activation. |
| TerminalLifecycle.TerminalLifecycleState.ApplyMouseMode | crates/terminal-ui/src/terminal_lifecycle.rs:246-265 | Likewise for the four mouse modes. |
| TerminalLifecycle.TerminalLifecycleState.EnableKeyboardEnhancement | crates/terminal-ui/src/terminal_lifecycle.rs:359-377 | A failed push still owes the pop unless it is unsupported, and never fails the activation; `KeyboardIsPushed` says when it is called and what it leaves. |
| TerminalLifecycle.TerminalLifecycleState.RestoreAll | crates/terminal-ui/src/terminal_lifecycle.rs:281-294 | The object's full cleanup is the specified pass over all modes. |
| TerminalLifecycle.TerminalLifecycleState.RestoreModesCollectingError | crates/terminal-ui/src/terminal_lifecycle.rs:305-346 | Six inverses in order, each tried although earlier ones failed. |
| TerminalOwnership.OwnershipIsExclusive | crates/terminal-ui/src/terminal_panic.rs:29-92 | Over all interleavings of guard calls: the count is the number of live claims; every live claim is of the one recorded owner and on the thread of its guard; between calls a guard holds a claim exactly when it owes a restore; no two threads owe restores at once. |
| TerminalOwnership.RefusedWhileClaimed | crates/terminal-ui/src/terminal_panic.rs:29-56 | After any interleaving: another thread's claim is refused exactly while some claim is alive, the owner's is granted up to the largest count, and a granted claim makes the thread the owner of one more. |
| TerminalOwnership.TerminalPanicRestoreRegistry.ClaimCurrentThread | crates/terminal-ui/src/terminal_panic.rs:29-56 | Grants nested claims to the owner, refuses others, and changes nothing when it refuses. |
| TerminalOwnership.TerminalPanicRestoreRegistry.Release | crates/terminal-ui/src/terminal_panic.rs:68-78 | The last release of the owner clears the owner; a release by anyone else changes nothing. |
| TerminalGuard.GuardCallFollowsProtocol | crates/terminal-ui/src/terminal_lifecycle.rs:558-630 | A whole guard call is an enter, operate and leave of the interleaving protocol, with the same registry, claim and debt. |
| TerminalGuard.CleanupMayRunUnclaimed | crates/terminal-ui/src/terminal_lifecycle.rs:592-617 | The calls that do not insist on a claim are those that add no obligation. |
| TerminalGuard.GuardCallReports | crates/terminal-ui/src/terminal_lifecycle.rs:558-630 | A guard call that is refused its claim has done nothing and reports the refusal; any other reports how its operation went, with the operation's error. |
| TerminalGuard.TerminalLifecycleGuard.ActivateMain | crates/terminal-ui/src/terminal_lifecycle.rs:558-566 | Claims before the terminal is touched, leaves it untouched when refused, and keeps the claim exactly if something is owed afterwards. |
| TerminalGuard.TerminalLifecycleGuard.RestoreAll | crates/terminal-ui/src/terminal_lifecycle.rs:602-610 | Claims only for existing debts, and keeps the claim exactly for the debts that remain. |
| TerminalGuard.TerminalLifecycleGuard.SyncPanicRestoreClaim | crates/terminal-ui/src/terminal_lifecycle.rs:626-630 | Gives the claim up exactly when nothing is owed. |
| Kmp.PrefixLengths | crates/terminal-ui/src/text_search.rs:96-111 | Entry by entry the length of the longest proper border of each prefix. |
| Kmp.Contains | crates/terminal-ui/src/text_search.rs:74-94 | True exactly when the needle is a contiguous part of the haystack; the steps back through the table never exceed the elements read, and those never the haystack. |
| TextSearch.Matches | crates/terminal-ui/src/text_search.rs:35-49 | True exactly when the folded needle occurs, for ASCII needles when some character window has the same letters up to ASCII case, by their places in the alphabet. |
| TextSearch.StartsWith | crates/terminal-ui/src/text_search.rs:52-71 | The same for prefixes. |
| TextSearch.NewQuery | crates/terminal-ui/src/text_search.rs:18-32 | A query carries the border table of its folded needle exactly if the needle is not ASCII. |
| TextSearch.ByteWindowIsCharWindow | crates/terminal-ui/src/text_search.rs:43-48 | A byte window of the UTF-8 text matches an ASCII needle exactly when a character window does: no match begins inside a longer encoding. |
| TextSearch.BytePrefixIsCharPrefix | crates/terminal-ui/src/text_search.rs:64-70 | The same for prefixes. |
| LetterCase.MatchIgnoresCase | crates/terminal-ui/src/text_search.rs:35-71 | Changing the case of ASCII letters in query and text changes neither answer; for queries that are not ASCII, if the tables lowercase both cases alike. |
| LetterCase.OneCharacterMatches | crates/terminal-ui/src/text_search.rs:35-71 | Nothing else is ignored: an ASCII character matches a one-character text, and compares equal to it, exactly if both are the same letter. |
| LetterCase.CapitalAndSmall | crates/terminal-ui/src/text_search.rs:43-70 | The capital and the small letter at one of the 26 places of the alphabet are the same letter, and no other two characters are. |
| LetterCase.ReadmeIsFound | crates/terminal-ui/src/text_search.rs:35-71 | The query readme is found in README.md and does not begin READ_ME; a sorts before B, and the underscore before A. |
| SearchHighlight.FilterAgreesWithHighlight | crates/terminal-ui/src/search_highlight.rs:221-250 | For a needle that is not ASCII a text passes the filter exactly when the highlight finds a range. |
| SearchHighlight.AsciiFilterMatchesExactly | crates/terminal-ui/src/text_search.rs:35-49 | An ASCII needle passes the filter exactly if it occurs in the folded text at a place that only ASCII characters lowercase to. |
| SearchHighlight.AsciiFilterAgreesExactly | crates/terminal-ui/src/search_highlight.rs:221-250 | For an ASCII needle filter and highlight agree on a text exactly if the highlight finds nothing or some occurrence is made by ASCII characters alone. |
| SearchHighlight.AsciiFilterAgreesWithHighlight | crates/terminal-ui/src/search_highlight.rs:221-250 | So they agree on every text whose other characters lowercase to no ASCII character. |
| SearchHighlight.AsciiMatchIsHighlighted | crates/terminal-ui/src/search_highlight.rs:221-250 | What the ASCII filter accepts the highlight finds, in every text. |
| SearchHighlight.KelvinIsHighlightedButFiltered | crates/terminal-ui/src/text_search.rs:35-49 | The Kelvin sign is marked for the query k and does not pass the filter. |
| SearchHighlight.FindCaseInsensitiveSubstring | crates/terminal-ui/src/search_highlight.rs:221-250 | A range is found exactly if the folded query occurs, and spans exactly the characters that produce its first occurrence. |
| SearchHighlight.FindCaseInsensitiveSubsequenceIndices | crates/terminal-ui/src/search_highlight.rs:195-219 | The scan, with its early return, computes the greedy subsequence. |
| SearchHighlight.GreedyIsSound | crates/terminal-ui/src/search_highlight.rs:195-219 | The indices ascend, and the characters there fold to the matched part of the query. |
| SearchHighlight.GreedyIsComplete | crates/terminal-ui/src/search_highlight.rs:195-219 | Over characters none of whose folds is a proper beginning of another's, the greedy search succeeds exactly if ascending characters of the text fold to the query. |
| SearchHighlight.GreedyIsCompleteExactly | crates/terminal-ui/src/search_highlight.rs:195-219 | A set of characters has this property if and only if the search misses no query in any text over it. |
| SearchHighlight.LongerFoldIsMissed | crates/terminal-ui/src/search_highlight.rs:195-219 | Two characters, the fold of the first a proper beginning of that of the second: the second is missed behind the first. |
| SearchHighlight.GreedyFindsFoldedSubsequences | crates/terminal-ui/src/search_highlight.rs:195-219 | Where every character folds to one, the search succeeds exactly if the folded query is a subsequence of the folded text. |
| SearchHighlight.GreedyCanMiss | crates/terminal-ui/src/search_highlight.rs:195-219 | The capital I with a dot, which lowercases to an i and a combining dot, is missed behind a plain i and found without it. |
| SearchHighlight.ContiguousRanges | crates/terminal-ui/src/search_highlight.rs:171-193 | Nonempty ranges with gaps between them that cover exactly the indices. |
| SearchHighlight.HighlightedCharRangesSpans | crates/terminal-ui/src/search_highlight.rs:133-169 | The spans read as the text and highlight exactly the covered characters; in a nonempty text none is empty or continues the style of its neighbour. |
| SearchHighlight.HighlightedSubstringSpans | crates/terminal-ui/src/search_highlight.rs:17-39 | For every text and query the spans read as the text and highlight the match of the trimmed query, or nothing. |
| Folding.TrimTakesWhiteSpace | crates/terminal-ui/src/search_highlight.rs:17-39 | Trimming a query takes white space from both ends and nothing else. |
| SearchHighlight.HighlightedSubsequenceSpans | crates/terminal-ui/src/search_highlight.rs:42-59 | The spans read as the text and highlight exactly the subsequence indices. |
| SearchHighlight.HighlightedSubstringOrSubsequenceSpans | crates/terminal-ui/src/search_highlight.rs:62-83 | The spans read as the text and highlight the substring match if there is one, else the subsequence. |
| NaturalSort.NaturalSortTextCmp | crates/runtime-domain/src/text.rs:5-49 | Equals the lexicographic comparison of the texts as tokens: maximal digit runs and lowercased characters. |
| NaturalSort.TakeAsciiDigitRun | crates/runtime-domain/src/text.rs:51-64 | Takes the maximal digit run and leaves the iterator behind it. |
| NaturalSort.RunsCompareByValue | crates/runtime-domain/src/text.rs:14-33 | Comparing significant length, significant digits and length orders digit runs of any size by numeric value, then by length. |
| TextOrder.FirstDifferenceDecides | crates/runtime-domain/src/text.rs:23-25 | Strings compare by their first difference: a missing character before any, a smaller before a larger. |
| NaturalSort.NaturalOrderIsTotal | crates/runtime-domain/src/text.rs:5-49 | The order is antisymmetric and transitive, equal exactly for texts with the same letters up to ASCII case, and equal texts compare alike. |
| NaturalSort.NumbersDecide | crates/runtime-domain/src/text.rs:5-49 | Behind a common prefix the numbers decide, then the rest. |
| NaturalSort.NumbersSortByValue | crates/runtime-domain/src/text.rs:5-49 | For all numbers, as they are written in decimal behind any zeros: behind a common beginning they sort by value, then by leading zeros, then by what follows. |
| NaturalSort.TwoBeforeTen | crates/runtime-domain/src/text.rs:5-33 | file2.txt comes before file10.txt, and v1.9 before v1.09. |
| LetterCase.LettersCompareSmall | crates/runtime-domain/src/text.rs:36-42 | Unless both texts begin with digits they compare by their first characters, capital letters as small ones, and then by the rest. |
| Calendar.DaysAreDates | crates/session-store/src/lib.rs:416-434 | Day 0 is 1 January 1970, every day has a valid Gregorian date (month lengths of section 5.7, leap years of Appendix C of RFC 3339), and the next day has the next date, for all integers. |
| Calendar.DatesAscend | crates/session-store/src/lib.rs:416-434 | Later days have later dates. |
| Calendar.ClosedFormFindsTheYear | crates/session-store/src/lib.rs:416-434 | The closed form finds the one March-based year that contains the day, and the day's place in it. |
| SessionFilename.NamesSortLikeIds | crates/session-store/src/lib.rs:399-414 | For any two ids, timestamps in the 48 bits of section 5.7 of RFC 9562, the smaller has the lexicographically smaller name if and only if both or neither date from before the year 10000. |
| SessionFilename.YearTenThousandSortsBeforeItsEve | crates/session-store/src/lib.rs:404-414 | The two ids one millisecond apart whose names sort the wrong way round. |
| SessionFilename.StampsCompare | crates/session-store/src/lib.rs:404-414 | Stamps with year fields of one width are equally long and compare as year, month, day, hour, minute and second do. |
| SessionFilename.HyphenatedCompares | crates/session-store/src/lib.rs:83-87 | Hyphenated hex ids compare as the numbers do. |
| SessionFilename.PaddedIsDigits | crates/session-store/src/lib.rs:413-413 | Zero padding writes the fixed-width digits of a number that fits. |
| SessionNames.NameReadsBack | crates/session-store/src/lib.rs:399-414 | For every id: civil time, with its separators, then an underscore, the id and the extension stand at fixed places of the name, and the digits there are the time of the id's second and the id itself. |
| SessionNames.IdIsRead | crates/session-store/src/lib.rs:83-87 | 36 characters with hyphens at places 8, 13, 18 and 23, the others the 32 hexadecimal digits of the id. |
| SessionNames.NameOfAnId | crates/session-store/src/lib.rs:399-414 | The literal name of the id 0x018bcfe568007000800000000000000a. |
| Apportionment.DistributeTokensByWeight | crates/conversation-runtime/src/context_budget.rs:459-498 | Everyone gets the quotient, as many as are left over a token more, nobody passed over for a smaller remainder or a later equal one; without weight the first gets everything. |
| ApportionmentLaws.SharesSumToTotal | crates/conversation-runtime/src/context_budget.rs:459-498 | Shares never exceed the total. They sum to it exactly if the loop that hands out spare tokens does not run out of weights with tokens left over. |
| ApportionmentLaws.ExactLeftoverIsSmall | crates/conversation-runtime/src/context_budget.rs:474-495 | Without saturation what is left over is zero or less than the number of inexact shares, so that nothing is lost and only inexact shares get a spare token. |
| ApportionmentLaws.SharesMeetQuota | crates/conversation-runtime/src/context_budget.rs:474-497 | Every share is the exact share, of the product as it may saturate, rounded down or up, if and only if there are no more spare tokens than inexact shares. |
| ApportionmentLaws.SparesGoToRemainders | crates/conversation-runtime/src/context_budget.rs:487-495 | Only inexact shares are rounded up, if and only if there are no more spare tokens than these. |
| ApportionmentLaws.ZeroWeightsGetNothing | crates/conversation-runtime/src/context_budget.rs:474-497 | A zero weight gets nothing exactly if the spare tokens do not outnumber the claims before its own, and so whenever there are no more spare tokens than inexact shares. |
| ApportionmentLaws.SparesGoByRank | crates/conversation-runtime/src/context_budget.rs:487-495 | A position gets a spare token exactly if fewer positions than tokens left over have a larger remainder or an equal one earlier. |
| ApportionmentLaws.SharesAreFair | crates/conversation-runtime/src/context_budget.rs:474-497 | Of equal weights the earlier gets at most one token more and never less. A larger weight gets less exactly if both products saturate, the smaller weight comes first and the last spare token goes out between the two. |
| ApportionmentLaws.SaturationLosesTokens | crates/conversation-runtime/src/context_budget.rs:479-479 | Four tokens for one weight of 2^63 come out as two. |
| ApportionmentLaws.SaturationCanBeUnfair | crates/conversation-runtime/src/context_budget.rs:479-479 | Three tokens for weights of a third of 2^64 and one more come out as two and one. |
| Apportionment.SortClaimsSorts | crates/conversation-runtime/src/context_budget.rs:488-488 | The stable sort by descending remainder keeps the claims and orders equal remainders by index. |
| ContextBudget.ScaleSegmentsToTotal | crates/conversation-runtime/src/context_budget.rs:240-255 | In place: kinds stay, tokens become the apportionment of the total by the old tokens. |
| ContextBudget.FinishSnapshot | crates/conversation-runtime/src/context_budget.rs:215-238 | A provider's total replaces the sum, is reported as used, and is spread over the segments; without one nothing changes. |
| ContextBudget.FinishedSnapshotConserves | crates/conversation-runtime/src/context_budget.rs:215-255 | Segments sum to the tokens reported as used exactly if there is no calibration, or none of its tokens are lost and there are segments to take them, or it is to zero. |
| ContextBudget.ExactSnapshotConserves | crates/conversation-runtime/src/context_budget.rs:215-255 | Without saturation a calibrated snapshot with segments sums to the provider's total. |
| ContextBudget.EmptySnapshotReportsTokens | crates/conversation-runtime/src/context_budget.rs:215-255 | A snapshot without segments calibrated to five tokens reports five. |
| ContextBudget.SplitPromptPreludeSystemSegment | crates/conversation-runtime/src/context_budget.rs:365-406 | A system message is split exactly if the prelude has a skill section with text. The estimate of the text is shared out over the weights of the joined system bodies and of the joined skill bodies; each kind with a share above zero has one part of that share, system first. The parts sum to the estimate exactly if the spare loop loses no token. |
| ContextBudget.PromptPreludeBuckets | crates/conversation-runtime/src/context_budget.rs:414-449 | The loop collects trimmed nonempty bodies by kind into at most one bucket each, system first. |
| ContextBudget.BodiesAreTheSections | crates/conversation-runtime/src/context_budget.rs:418-431 | The bodies of a kind are the trimmed nonempty bodies of exactly the sections of that kind, in their order. |
| ContextBudget.JoinedByEmptyLines | crates/conversation-runtime/src/context_budget.rs:433-448 | Joined bodies follow one another with an empty line between them. |
| ContextBudget.PartsOfBuckets | crates/conversation-runtime/src/context_budget.rs:387-405 | Any shares of the estimate over the buckets give the parts the split promises. |
| ContextBudget.DroppingZerosKeepsTheSum | crates/conversation-runtime/src/context_budget.rs:393-405 | Dropping empty buckets keeps the sum. |
| ListSelection.PageShowsExactlyItsItems | crates/terminal-ui/src/list_selection.rs:73-83 | The visible indices are exactly the items on the selected item's page, for every page size. |
| ListSelection.PageNumbersAreInRange | crates/terminal-ui/src/list_selection.rs:85-97 | Page numbers lie between 1 and the page count, which is the last item's page; an empty list has one page. |
| ListSelection.MovePageMovesOnePage | crates/terminal-ui/src/list_selection.rs:59-71 | Selects the first item of the neighbouring page, or of the same page at the ends. |
| ListSelection.VisibleIndexOnPage | crates/terminal-ui/src/list_selection.rs:107-114 | A click selects the item that many rows below the first visible one, if there is one; the selected row's offset selects it again, and a selected offset stays on the page exactly when it is below the page size. |
| ListSelection.VisibleIndexLeavesThePage | crates/terminal-ui/src/list_selection.rs:107-114 | Offset seven on the first page of five selects a row of the second. |
| ListSelection.StepsAreInverse | crates/terminal-ui/src/list_selection.rs:48-57 | Next and previous go to the neighbour, stay where there is none, and undo each other away from the ends. |
| ListSelection.NewClampsToNearest | crates/terminal-ui/src/list_selection.rs:41-46 | A selection is clamped to the nearest item. |
| ListSelection.WindowStepsAndClicks | crates/terminal-ui/src/list_selection.rs:125-156 | In the window, too, steps go to the neighbour or stay, and a click selects exactly the item shown there. |
| ListSelection.ScrollStartForSelection | crates/terminal-ui/src/list_selection.rs:129-147 | The window shows the selection, leaves no blank rows it could fill, and among such windows moves least. |
| FullscreenSearchList.MatchingIsExact | crates/terminal-ui/src/fullscreen_search_list.rs:98-109 | The filter lists exactly the matching rows in increasing order. |
| FullscreenSearchList.RefilterKeepsTheRow | crates/terminal-ui/src/fullscreen_search_list.rs:269-290 | A row that stays in the list stays selected exactly if no row in front of it has its id: always, with unique ids. |
| FullscreenSearchList.SelectedRowSurvivesRefilter | crates/terminal-ui/src/fullscreen_search_list.rs:85-109 | With unique ids a selected row that matches the new query is selected afterwards. |
| FullscreenSearchList.MatchingRowStaysSelected | crates/terminal-ui/src/fullscreen_search_list.rs:150-202 | Over any sequence of queries, with unique ids, a row that matches all of them is still selected. |
| FullscreenSearchList.State.ApplyFilter | crates/terminal-ui/src/fullscreen_search_list.rs:85-96 | From any state establishes the invariant: the indices listed are exactly, in order, those of the rows that match the query without the white space around it; selection in range, id of the selected row; the selection follows the remembered id. |
| FullscreenSearchList.State.RebuildFilteredIndices | crates/terminal-ui/src/fullscreen_search_list.rs:98-109 | The loop lists exactly the indices of the matching rows in increasing order. |
| FullscreenSearchList.State.ReplaceRows | crates/terminal-ui/src/fullscreen_search_list.rs:75-83 | Keeps the invariant for the new rows, with the selection on the row of the old id or clamped. |
| FullscreenSearchList.State.RestoreSelectedIdOrClamp | crates/terminal-ui/src/fullscreen_search_list.rs:269-290 | Selects the first row with the wanted id, else clamps. |
| FullscreenSearchList.RestoredIsNearest | crates/terminal-ui/src/fullscreen_search_list.rs:269-290 | A selection whose row is gone goes to the nearest of the remaining rows. |
| FullscreenSearchList.State.MoveSelection | crates/terminal-ui/src/fullscreen_search_list.rs:121-133 | Keeps the invariant and steps the selection. |
| FullscreenSearchList.State.MovePage | crates/terminal-ui/src/fullscreen_search_list.rs:135-148 | Keeps the invariant and moves the selection by a page. |
| FullscreenSearchList.State.SelectLastRow | crates/terminal-ui/src/fullscreen_search_list.rs:111-119 | Keeps the invariant and selects the last filtered row. |
| FullscreenSearchList.State.SelectVisibleRow | crates/terminal-ui/src/fullscreen_search_list.rs:224-245 | Keeps the invariant; selects the visible row, or reports a miss and changes nothing. |
| FullscreenSearchList.State.PushSearchCharacter | crates/terminal-ui/src/fullscreen_search_list.rs:150-158 | Keeps the invariant for the longer query, with the selection following its row. |
| FullscreenSearchList.State.BackspaceSearch | crates/terminal-ui/src/fullscreen_search_list.rs:160-168 | Keeps the invariant for the shorter query; an empty query stays as it is. |
| FullscreenSearchList.State.ClearSearch | crates/terminal-ui/src/fullscreen_search_list.rs:170-183 | Keeps the invariant for the empty query, and does nothing exactly outside a search without query. |
| FullscreenSearchList.State.ExitSearch | crates/terminal-ui/src/fullscreen_search_list.rs:185-202 | Keeps the invariant, ends the search, and refilters exactly if there was a query. |
| BoundedLruCache.Cache.Insert | crates/terminal-ui/src/bounded_lru_cache.rs:38-47 | Keeps the invariant: the recency list is the capacity's worth of newest touched keys, the map has exactly these keys, with the values inserted last. |
| BoundedLruCache.Cache.EvictOldest | crates/terminal-ui/src/bounded_lru_cache.rs:41-46 | The loop drops the oldest keys with their values until the newest, as many as the capacity, are left. |
| BoundedLruCache.Cache.GetCloned | crates/terminal-ui/src/bounded_lru_cache.rs:29-36 | Hits exactly the keys with fewer than capacity other keys touched since their last touch, and returns the value inserted last. |
| BoundedLruCache.Cache.TouchKey | crates/terminal-ui/src/bounded_lru_cache.rs:75-80 | Moves the key to the back of the list, in which it stays unique. |
| BoundedLruCache.NewestAreRecentlyTouched | crates/terminal-ui/src/bounded_lru_cache.rs:29-47 | Among the newest n keys of a trace are exactly the touched keys with fewer than n others touched since. |
| BoundedLruCache.NewestAfterTouch | crates/terminal-ui/src/bounded_lru_cache.rs:38-47 | Evicting early makes no difference: the cache keeps what the whole history would keep. |

## Left out

- TerminalGrid.DiffTerminalBuffers: requires frames without `Skip` cells, without cells wider than two columns, without wide cells in the last column or without a narrow tail, and with origin zero; what the screen should show for a cell that asks not to be drawn is not defined here.
- TerminalGrid.RowClearFrom: requires a row of such a frame.
- TerminalGrid.PreviousTailNeedsClear: requires a row of such a frame.
- TerminalGrid.EmitClears: requires such frames.
- TerminalGrid.EmitPuts: requires such frames.
- TerminalGrid.WidePrefillWidth: states only that the prefill is nothing or the glyph's width; which glyphs are prefilled changes no screen of the model (`PrefillIsInvisible`), it is for terminals that do not restyle tails.
- TerminalSurface.FlushScreen: does not model errors of the terminal's output, which end the frame early.
- TerminalSurface.DrawTerminalCommands: does not model errors of the terminal's output; sequences are values, not bytes.
- Terminals that ignore an attribute or treat the two blinks as one: attributes are a set.
- Resizing, and swapping the buffers after a frame.
- Real files, the final sync, threads, the drop timeout and tracing of the recorder: a write is a batch of bytes of which a failure keeps some prefix. Directories are not created. Input and output errors are all alike.
- JSON and UTF-8 decoding of lines: a line parses or does not. Fields of an entry other than id and parent are one payload.
- Warnings and line numbers of the scan.
- Per-screen keyboard stacks and the emergency restore of the panic hook: one on/off flag per mode, and a restore on the owning thread only.
- TerminalOwnership.OwnershipIsExclusive: each guard is used on its own thread, and thread ids are never reused.
- TerminalOwnership.TerminalPanicRestoreRegistry.ClaimCurrentThread: the lock is not modelled; claiming and releasing are single steps.
- SearchHighlight.GreedyIsComplete: decides over a set of characters, for all texts and queries; a particular query in a particular text over other characters may still be found.
- The score of subsequence matches and the style of highlights: single-expression facts.
- Unicode tables: theorems assume of them only what they say, such as that ASCII letters lowercase to ASCII and that nothing lowercases to nothing.
- Parsing session ids, checking that they are version 7, and entry ids: name order holds for all 128-bit ids.
- Overflow of sums of tokens: totals and weights are assumed to fit a word, as overflow there is an error of the program and not a result. Saturating products are modelled.
- ContextBudget.SplitPromptPreludeSystemSegment: sums to the estimate of the projected text; the estimate of an unsplit item, which counts images separately, is not part of this model. The tokenizer and the message serializer are parameters.
- Projection of provider requests, cancellation, and the display of a snapshot.
- The accessors of the search list and its start of a search, beyond what the invariant says.
- Key dispatch, rendering, pickers and row contents of the search lists: matching and row ids are parameters, and the same ones in every call.
- `usize` overflow of list arithmetic: saturating additions stop above every item count, so unbounded numbers give the same results.
- Iteration over the values of the cache and its reserved capacity.
- Message history, session tree resolution, stream decoding, prompt assembly, configuration and HTTP.
