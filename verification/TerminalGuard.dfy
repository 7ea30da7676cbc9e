/** The lifecycle guard: every call makes sure of a claim before it touches the terminal, and gives the
    claim up as soon as nothing is owed. */
module TerminalGuard {
  import opened Wrappers
  import opened TerminalModes
  import opened TerminalLifecycle
  import Safety = TerminalSafety
  import opened TerminalOwnership

  datatype GuardError = Io(error: IoError) | Claim(claimError: ClaimError)

  /** A guard with the registry and the terminal it works on. */
  datatype GuardView = GuardView(registry: Registry, claim: Option<ThreadId>, lifecycle: Lifecycle)

  function Lift(result: Result<(), IoError>): Result<(), GuardError> {
    match result
    case Ok(_) => Ok(())
    case Err(error) => Err(Io(error))
  }

  /** One guard call: `mayAdd` calls always want a claim, the others only when something is owed. */
  function GuardCall(view: GuardView, thread: ThreadId, mayAdd: bool, outcome: (Lifecycle, Result<(), IoError>))
    : (GuardView, Result<(), GuardError>)
  {
    var ensured :=
      if mayAdd || view.lifecycle.owed.Any() then EnsureClaim(view.registry, view.claim, thread)
      else Ok((view.registry, view.claim));
    match ensured
    case Err(error) => (view, Err(Claim(error)))
    case Ok((registry, claim)) =>
      var (registry', claim') := SyncClaim(registry, claim, outcome.0.owed.Any());
      (GuardView(registry', claim', outcome.0), Lift(outcome.1))
  }

  class TerminalLifecycleGuard {
    const state: TerminalLifecycleState
    const registry: TerminalPanicRestoreRegistry
    const terminal: Terminal
    var panicRestoreClaim: Option<ThreadId>

    constructor (registry: TerminalPanicRestoreRegistry, terminal: Terminal)
      ensures fresh(state) && this.registry == registry && this.terminal == terminal
      ensures panicRestoreClaim == None && state.Owed() == NOTHING_OWED
    {
      state := new TerminalLifecycleState();
      this.registry := registry;
      this.terminal := terminal;
      panicRestoreClaim := None;
    }

    function View(): GuardView
      reads this, state, registry, terminal
    {
      GuardView(registry.View(), panicRestoreClaim, state.View(terminal))
    }

    method EnsurePanicRestoreClaim(thread: ThreadId) returns (result: Result<(), GuardError>)
      modifies this, registry
      ensures match EnsureClaim(old(registry.View()), old(panicRestoreClaim), thread)
              case Ok((registry', claim')) =>
                result.Ok? && registry.View() == registry' && panicRestoreClaim == claim'
              case Err(error) =>
                && result == Err(Claim(error))
                && registry.View() == old(registry.View()) && panicRestoreClaim == old(panicRestoreClaim)
    {
      if panicRestoreClaim == None {
        var claimed := registry.ClaimCurrentThread(thread);
        match claimed {
          case Ok(claim) => panicRestoreClaim := Some(claim);
          case Err(error) => return Err(Claim(error));
        }
      }
      result := Ok(());
    }

    method EnsureClaimForExistingObligations(thread: ThreadId) returns (result: Result<(), GuardError>)
      modifies this, registry
      ensures if state.Owed().Any() then
                match EnsureClaim(old(registry.View()), old(panicRestoreClaim), thread)
                case Ok((registry', claim')) =>
                  result.Ok? && registry.View() == registry' && panicRestoreClaim == claim'
                case Err(error) =>
                  && result == Err(Claim(error))
                  && registry.View() == old(registry.View()) && panicRestoreClaim == old(panicRestoreClaim)
              else
                result.Ok? && registry.View() == old(registry.View()) && panicRestoreClaim == old(panicRestoreClaim)
    {
      if state.HasRestoreObligations() {
        result := EnsurePanicRestoreClaim(thread);
      } else {
        result := Ok(());
      }
    }

    method SyncPanicRestoreClaim()
      modifies this, registry
      ensures (registry.View(), panicRestoreClaim)
              == SyncClaim(old(registry.View()), old(panicRestoreClaim), state.Owed().Any())
    {
      if !state.HasRestoreObligations() {
        if panicRestoreClaim.Some? {
          registry.Release(panicRestoreClaim.value);
        }
        panicRestoreClaim := None;
      }
    }

    method ActivateMain(thread: ThreadId) returns (result: Result<(), GuardError>)
      modifies this, state, registry, terminal
      ensures (View(), result)
              == GuardCall(old(View()), thread, true,
                           TerminalModes.ActivateMain(terminal.script, old(View()).lifecycle))
    {
      result := EnsurePanicRestoreClaim(thread);
      if result.Err? { return; }
      var done := state.ActivateMain(terminal);
      SyncPanicRestoreClaim();
      result := Lift(done);
    }

    method ActivateMinimal(thread: ThreadId) returns (result: Result<(), GuardError>)
      modifies this, state, registry, terminal
      ensures (View(), result)
              == GuardCall(old(View()), thread, true,
                           TerminalModes.ActivateMinimal(terminal.script, old(View()).lifecycle))
    {
      result := EnsurePanicRestoreClaim(thread);
      if result.Err? { return; }
      var done := state.ActivateMinimal(terminal);
      SyncPanicRestoreClaim();
      result := Lift(done);
    }

    method ApplyMouseMode(thread: ThreadId, mouse: bool, scroll: bool) returns (result: Result<(), GuardError>)
      modifies this, state, registry, terminal
      ensures (View(), result)
              == GuardCall(old(View()), thread, true,
                           TerminalModes.ApplyMouseMode(terminal.script, old(View()).lifecycle, mouse, scroll))
    {
      result := EnsurePanicRestoreClaim(thread);
      if result.Err? { return; }
      var done := state.ApplyMouseMode(terminal, mouse, scroll);
      SyncPanicRestoreClaim();
      result := Lift(done);
    }

    method HideCursor(thread: ThreadId) returns (result: Result<(), GuardError>)
      modifies this, state, registry, terminal
      ensures (View(), result)
              == GuardCall(old(View()), thread, true, TerminalModes.HideCursor(terminal.script, old(View()).lifecycle))
    {
      result := EnsurePanicRestoreClaim(thread);
      if result.Err? { return; }
      var done := state.HideCursor(terminal);
      SyncPanicRestoreClaim();
      result := Lift(done);
    }

    method ShowCursor(thread: ThreadId) returns (result: Result<(), GuardError>)
      modifies this, state, registry, terminal
      ensures (View(), result)
              == GuardCall(old(View()), thread, false,
                           DisableMode(terminal.script, old(View()).lifecycle, HiddenCursor))
    {
      result := EnsureClaimForExistingObligations(thread);
      if result.Err? { return; }
      var done := state.ShowCursor(terminal);
      SyncPanicRestoreClaim();
      result := Lift(done);
    }

    method RestoreModes(thread: ThreadId) returns (result: Result<(), GuardError>)
      modifies this, state, registry, terminal
      ensures (View(), result)
              == GuardCall(old(View()), thread, false,
                           TerminalModes.RestoreModes(terminal.script, old(View()).lifecycle))
    {
      result := EnsureClaimForExistingObligations(thread);
      if result.Err? { return; }
      var done := state.RestoreModes(terminal);
      SyncPanicRestoreClaim();
      result := Lift(done);
    }

    method RestoreAll(thread: ThreadId) returns (result: Result<(), GuardError>)
      modifies this, state, registry, terminal
      ensures (View(), result)
              == GuardCall(old(View()), thread, false, TerminalModes.RestoreAll(terminal.script, old(View()).lifecycle))
    {
      result := EnsureClaimForExistingObligations(thread);
      if result.Err? { return; }
      var done := state.RestoreAll(terminal);
      SyncPanicRestoreClaim();
      result := Lift(done);
    }
  }

  // ----- guard calls are steps of the ownership protocol -----

  ghost predicate Matches(w: World, g: nat, view: GuardView, thread: ThreadId) {
    && g < |w.guards|
    && w.registry == view.registry
    && w.guards[g] == Guard(thread, view.claim, view.lifecycle.owed.Any(), Idle)
  }

  /** A whole guard call is an uninterrupted enter, operate and leave of the protocol, so what the
      protocol keeps over all interleavings, guards keep. */
  lemma GuardCallFollowsProtocol(w: World, g: nat, view: GuardView, thread: ThreadId, mayAdd: bool,
                                 outcome: (Lifecycle, Result<(), IoError>))
    requires Matches(w, g, view, thread)
    requires mayAdd || (outcome.0.owed.Any() ==> view.lifecycle.owed.Any())
    ensures var (view', result) := GuardCall(view, thread, mayAdd, outcome);
      var w1 := Take(w, Enter(g, mayAdd));
      if result.Err? && result.error.Claim? then w1 == w && view' == view
      else Matches(Take(Take(w1, Operate(g, outcome.0.owed.Any())), Leave(g)), g, view', thread)
  {
    var w1 := Take(w, Enter(g, mayAdd));
    var w2 := Take(w1, Operate(g, outcome.0.owed.Any()));
    var w3 := Take(w2, Leave(g));
    var (view', result) := GuardCall(view, thread, mayAdd, outcome);
    if !(result.Err? && result.error.Claim?) {
      assert w1.guards[g].phase == Busy(mayAdd);
      assert w2.guards[g].owes == outcome.0.owed.Any();
    }
  }

  /** What a guard call tells its caller: that the claim was refused, and then nothing has happened, or how
      its operation went. */
  lemma GuardCallReports(view: GuardView, thread: ThreadId, mayAdd: bool, outcome: (Lifecycle, Result<(), IoError>))
    ensures var (view', result) := GuardCall(view, thread, mayAdd, outcome);
      var insists := mayAdd || exists mode :: view.lifecycle.owed.Owes(mode);
      if insists && view.claim.None? && ClaimFor(view.registry, thread).Err? then
        view' == view && result == Err(Claim(ClaimFor(view.registry, thread).error))
      else
        && view'.lifecycle == outcome.0
        && (result.Ok? <==> outcome.1.Ok?)
        && (result.Err? ==> result.error == Io(outcome.1.error))
        && (insists ==> (view'.claim.Some? <==> exists mode :: outcome.0.owed.Owes(mode)))
  {
    AnyMeansSome(view.lifecycle.owed);
    AnyMeansSome(outcome.0.owed);
  }

  lemma AnyMeansSome(owed: Obligations)
    ensures owed.Any() <==> exists mode :: owed.Owes(mode)
  {
    assert owed.Owes(RawMode) == owed.rawMode;
    assert owed.Owes(KeyboardEnhancement) == owed.keyboardEnhancement;
    assert owed.Owes(AlternateScreen) == owed.alternateScreen;
    assert owed.Owes(AlternateScroll) == owed.alternateScroll;
    assert owed.Owes(MouseCapture) == owed.mouseCapture;
    assert owed.Owes(BracketedPaste) == owed.bracketedPaste;
    assert owed.Owes(HiddenCursor) == owed.hiddenCursor;
  }

  /** The calls that do not insist on a claim are those that add no obligation. */
  lemma CleanupMayRunUnclaimed(script: Script, s: Lifecycle, action: Safety.Action)
    requires action.Reveal? || action.Modes? || action.All?
    ensures Safety.Act(script, s, action).0.owed.Any() ==> s.owed.Any()
  {
    Safety.CleanupAddsNothing(script, s, action);
    AnyMeansSome(s.owed);
    AnyMeansSome(Safety.Act(script, s, action).0.owed);
  }
}
