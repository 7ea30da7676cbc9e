/** Which operations the terminal sees: every call of the lifecycle performs a list of operations in
    order, stops at the first that fails, and reports that failure. */
module TerminalCalls {
  import opened Wrappers
  import opened TerminalModes
  import opened TerminalSafety
  import opened TerminalActivation

  ghost predicate SucceedFrom(script: Script, start: nat, n: nat) {
    forall k :: start <= k < start + n ==> script(k).Succeeds?
  }

  predicate FailsWith(outcome: Outcome, error: IoError) {
    match outcome
    case Succeeds => false
    case Fails(code, _) => error == IoError(code, false)
    case Unsupported(code) => error == IoError(code, true)
  }

  /** Performs `wanted` in order up to the first failure, and reports it. */
  ghost predicate Performs(script: Script, before: Lifecycle, after: Lifecycle, wanted: seq<Operation>,
                           result: Result<(), IoError>)
  {
    var start, n := |before.device.calls|, |after.device.calls| - |before.device.calls|;
    && 0 <= n <= |wanted|
    && after.device.calls == before.device.calls + wanted[..n]
    && match result
       case Ok(_) => n == |wanted| && SucceedFrom(script, start, n)
       case Err(error) => n > 0 && SucceedFrom(script, start, n - 1) && FailsWith(script(start + n - 1), error)
  }

  lemma PerformsThen(script: Script, s: Lifecycle, s1: Lifecycle, s2: Lifecycle, wanted: seq<Operation>,
                     first: Result<(), IoError>, more: seq<Operation>, result: Result<(), IoError>)
    requires Performs(script, s, s1, wanted, first) && first.Ok? && Performs(script, s1, s2, more, result)
    ensures Performs(script, s, s2, wanted + more, result)
  {
    var n := |s2.device.calls| - |s1.device.calls|;
    assert (wanted + more)[..|wanted| + n] == wanted + more[..n];
    assert s.device.calls + wanted + more[..n] == s.device.calls + (wanted + more[..n]);
    assert wanted[..|wanted|] == wanted;
  }

  lemma PerformsNoMore(script: Script, s: Lifecycle, s1: Lifecycle, wanted: seq<Operation>, more: seq<Operation>,
                       result: Result<(), IoError>)
    requires Performs(script, s, s1, wanted, result) && result.Err?
    ensures Performs(script, s, s1, wanted + more, result)
  {
    var n := |s1.device.calls| - |s.device.calls|;
    assert (wanted + more)[..n] == wanted[..n];
  }

  /** The modes that still have to be switched on. */
  function Missing(owed: Obligations, modes: seq<Mode>): seq<Operation> {
    if modes == [] then []
    else (if owed.Owes(modes[0]) then [] else [Enable(modes[0])]) + Missing(owed, modes[1..])
  }

  function Present(owed: Obligations, mode: Mode): seq<Operation> { if owed.Owes(mode) then [Disable(mode)] else [] }

  lemma EnablePerforms(script: Script, s: Lifecycle, mode: Mode)
    ensures var (s', result) := EnableMode(script, s, mode);
      Performs(script, s, s', if s.owed.Owes(mode) then [] else [Enable(mode)], result)
  {
    hide Obligations.Owes;
    hide Obligations.With;
  }

  lemma DisablePerforms(script: Script, s: Lifecycle, mode: Mode)
    ensures var (s', result) := DisableMode(script, s, mode);
      Performs(script, s, s', Present(s.owed, mode), result)
  {
    hide Obligations.Owes;
    hide Obligations.With;
  }

  lemma {:induction false} MissingOnly(owed: Obligations, other: Obligations, modes: seq<Mode>)
    requires forall mode :: mode in modes ==> owed.Owes(mode) == other.Owes(mode)
    ensures Missing(owed, modes) == Missing(other, modes)
  {
    if modes != [] {
      assert modes[0] in modes;
      assert forall mode :: mode in modes[1..] ==> mode in modes;
      MissingOnly(owed, other, modes[1..]);
    }
  }

  lemma {:induction false} EnableModesPerforms(script: Script, s: Lifecycle, modes: seq<Mode>)
    requires Distinct(modes)
    ensures var (s', result) := EnableModes(script, s, modes);
      Performs(script, s, s', Missing(s.owed, modes), result)
    decreases |modes|
  {
    hide Performs;
    hide EnableMode;
    hide Obligations.Owes;
    if modes == [] {
      NothingPerformed(script, s);
    } else {
      var mode, rest := modes[0], modes[1..];
      var (s1, r1) := EnableMode(script, s, mode);
      EnablePerforms(script, s, mode);
      if r1.Err? {
        PerformsNoMore(script, s, s1, if s.owed.Owes(mode) then [] else [Enable(mode)], Missing(s.owed, rest), r1);
      } else {
        EnableOne(script, s, mode);
        forall other | other in rest
          ensures s1.owed.Owes(other) == s.owed.Owes(other)
        {
          assert Untouched(s, s1, other);
        }
        MissingOnly(s.owed, s1.owed, rest);
        EnableModesPerforms(script, s1, rest);
        var (s2, r2) := EnableModes(script, s1, rest);
        PerformsThen(script, s, s1, s2, if s.owed.Owes(mode) then [] else [Enable(mode)], r1,
                     Missing(s1.owed, rest), r2);
      }
    }
  }

  lemma NothingPerformed(script: Script, s: Lifecycle)
    ensures Performs(script, s, s, [], Ok(()))
  {
    assert s.device.calls + [] == s.device.calls;
  }

  // ----- activation -----

  const SCREEN_MODES := [RawMode, AlternateScreen]
  const INPUT_MODES := [MouseCapture, BracketedPaste]

  /** Everything a main activation does before the keyboard. */
  function ActivationCalls(owed: Obligations): seq<Operation> {
    Missing(owed, SCREEN_MODES) + ([Disable(AlternateScroll)] + Missing(owed, INPUT_MODES))
  }

  /** The keyboard enhancement is pushed unless it is suppressed or still to be popped. A push that is
      not supported leaves nothing to pop, any other may have reached the terminal. */
  ghost predicate Pushed(script: Script, before: Lifecycle, after: Lifecycle) {
    if before.suppressKeyboard || before.owed.Owes(KeyboardEnhancement) then
      after.device == before.device && after.owed == before.owed
    else
      var outcome := script(|before.device.calls|);
      && after.device.calls == before.device.calls + [Enable(KeyboardEnhancement)]
      && (IsOn(after, KeyboardEnhancement)
          <==> outcome.Succeeds? || (outcome.Fails? && outcome.tookEffect) || IsOn(before, KeyboardEnhancement))
      && (after.owed.Owes(KeyboardEnhancement) <==> !outcome.Unsupported?)
      && forall other :: other != KeyboardEnhancement ==> Untouched(before, after, other)
  }

  lemma KeyboardIsPushed(script: Script, s: Lifecycle)
    ensures Pushed(script, s, EnableKeyboard(script, s))
    ensures EnableKeyboard(script, s).suppressKeyboard == s.suppressKeyboard
  {
    assert s.owed.Owes(KeyboardEnhancement) == s.owed.keyboardEnhancement;
    hide Obligations.Owes;
    hide Obligations.With;
  }

  ghost predicate SameDebt(before: Lifecycle, after: Lifecycle, modes: seq<Mode>) {
    forall mode :: mode in modes ==> after.owed.Owes(mode) == before.owed.Owes(mode)
  }

  /** The steps before the keyboard; `ready` is where they end if none fails. */
  lemma MainStepsPerform(script: Script, s: Lifecycle) returns (ready: Lifecycle)
    ensures var (s', result) := ActivateMainSteps(script, s);
      && (result.Err? ==> Performs(script, s, s', ActivationCalls(s.owed), result))
      && (result.Ok? ==>
            && Performs(script, s, ready, ActivationCalls(s.owed), result)
            && Untouched(s, ready, KeyboardEnhancement) && ready.suppressKeyboard == s.suppressKeyboard
            && s' == EnableKeyboard(script, ready))
  {
    hide Performs;
    hide EnableModes;
    hide EnableKeyboard;
    hide ForceDisableMode;
    hide Obligations.Owes;
    hide Missing;
    var (s1, r1) := EnableModes(script, s, SCREEN_MODES);
    var (s2, r2) := ForceDisableMode(script, s1, AlternateScroll);
    var (s3, r3) := EnableModes(script, s2, INPUT_MODES);
    ready := s3;
    var first, rest := Missing(s.owed, SCREEN_MODES), Missing(s.owed, INPUT_MODES);
    EnableModesPerforms(script, s, SCREEN_MODES);
    EnableTwo(script, s, RawMode, AlternateScreen);
    ForcedOff(script, s1, AlternateScroll);
    ForcePerforms(script, s1, AlternateScroll);
    EnableModesPerforms(script, s2, INPUT_MODES);
    EnableTwo(script, s2, MouseCapture, BracketedPaste);
    DebtsKept(s, s1, s2, s3);
    MissingOnly(s.owed, s2.owed, INPUT_MODES);
    if r1.Err? {
      PerformsNoMore(script, s, s1, first, [Disable(AlternateScroll)] + rest, r1);
    } else if r2.Err? {
      PerformsThen(script, s, s1, s2, first, r1, [Disable(AlternateScroll)], r2);
      PerformsNoMore(script, s, s2, first + [Disable(AlternateScroll)], rest, r2);
      assert first + [Disable(AlternateScroll)] + rest == first + ([Disable(AlternateScroll)] + rest);
    } else {
      PerformsThen(script, s1, s2, s3, [Disable(AlternateScroll)], r2, rest, r3);
      PerformsThen(script, s, s1, s3, first, r1, [Disable(AlternateScroll)] + rest, r3);
      if r3.Ok? { assert r3.value == (); }
    }
  }

  lemma ForcePerforms(script: Script, s: Lifecycle, mode: Mode)
    ensures var (s', result) := ForceDisableMode(script, s, mode);
      Performs(script, s, s', [Disable(mode)], result)
  {
    hide Obligations.Owes;
    hide Obligations.With;
  }

  /** The first two steps leave the debts of the others alone, and all three that of the keyboard. */
  lemma DebtsKept(s: Lifecycle, s1: Lifecycle, s2: Lifecycle, s3: Lifecycle)
    requires forall mode :: mode != RawMode && mode != AlternateScreen ==> Untouched(s, s1, mode)
    requires forall mode :: mode != AlternateScroll ==> Untouched(s1, s2, mode)
    requires forall mode :: mode != MouseCapture && mode != BracketedPaste ==> Untouched(s2, s3, mode)
    ensures SameDebt(s, s2, INPUT_MODES) && Untouched(s, s3, KeyboardEnhancement)
  {
    assert Untouched(s, s1, MouseCapture) && Untouched(s1, s2, MouseCapture);
    assert Untouched(s, s1, BracketedPaste) && Untouched(s1, s2, BracketedPaste);
    assert Untouched(s, s1, KeyboardEnhancement) && Untouched(s1, s2, KeyboardEnhancement);
    assert Untouched(s2, s3, KeyboardEnhancement);
  }

  /** What a main activation does, call by call. If it returns Ok, all its steps succeeded and the keyboard
      was pushed; if not, the failed step is reported and a full cleanup followed. */
  lemma ActivationPerforms(script: Script, s: Lifecycle) returns (ready: Lifecycle)
    ensures var (s', result) := ActivateMain(script, s);
      && (result.Ok? ==>
            && Performs(script, s, ready, ActivationCalls(s.owed), result) && Pushed(script, ready, s')
            && Untouched(s, ready, KeyboardEnhancement) && ready.suppressKeyboard == s.suppressKeyboard)
      && (result.Err? ==>
            && Performs(script, s, ready, ActivationCalls(s.owed), result)
            && s'.device.calls == ready.device.calls + PassCalls(ready.owed, RESTORE_ORDER))
  {
    ready := MainStepsPerform(script, s);
    var (steps, result) := ActivateMainSteps(script, s);
    hide ActivateMainSteps;
    if result.Ok? {
      KeyboardIsPushed(script, ready);
    } else {
      ready := steps;
      RestoreOrderIsComplete();
      RestorePass(script, steps, RESTORE_ORDER, None);
    }
  }

  const ALL_SIX := [Enable(RawMode), Enable(AlternateScreen), Disable(AlternateScroll), Enable(MouseCapture),
                    Enable(BracketedPaste), Enable(KeyboardEnhancement)]

  /** A normal start: nothing owed, the keyboard not suppressed, and no call fails. */
  lemma NormalStart(script: Script, s: Lifecycle)
    requires Safe(s) && s.owed == NOTHING_OWED && !s.suppressKeyboard
    requires SucceedFrom(script, |s.device.calls|, |ALL_SIX|)
    ensures var (s', result) := ActivateMain(script, s);
      && result.Ok? && s'.device.calls == s.device.calls + ALL_SIX
      && s'.device.on == {RawMode, AlternateScreen, MouseCapture, BracketedPaste, KeyboardEnhancement}
      && s'.owed == Obligations(true, true, true, false, true, true, false)
  {
    var ready := ActivationPerforms(script, s);
    var (s', result) := ActivateMain(script, s);
    CleanCalls();
    hide ActivateMain;
    assert ALL_SIX == ActivationCalls(s.owed) + [Enable(KeyboardEnhancement)];
    assert result.Ok?;
    assert ready.device.calls == s.device.calls + ActivationCalls(s.owed);
    CleanActivationTurnsModesOn(script, s);
    ActivationTurnsModesOn(script, s);
  }

  lemma CleanCalls()
    ensures ActivationCalls(NOTHING_OWED)
            == [Enable(RawMode), Enable(AlternateScreen), Disable(AlternateScroll), Enable(MouseCapture),
                Enable(BracketedPaste)]
  {
    assert SCREEN_MODES[1..] == [AlternateScreen] && INPUT_MODES[1..] == [BracketedPaste];
    assert Missing(NOTHING_OWED, [AlternateScreen]) == [Enable(AlternateScreen)];
    assert Missing(NOTHING_OWED, [BracketedPaste]) == [Enable(BracketedPaste)];
  }

  /** A minimal activation: raw mode and the alternate screen, a full cleanup if one fails, and nothing
      else in any case. */
  lemma MinimalActivationPerforms(script: Script, s: Lifecycle)
    ensures var (steps, _) := EnableModes(script, s, SCREEN_MODES);
      var (s', result) := ActivateMinimal(script, s);
      && Performs(script, s, steps, Missing(s.owed, SCREEN_MODES), result)
      && (result.Err? ==> s'.device.calls == steps.device.calls + PassCalls(steps.owed, RESTORE_ORDER))
      && (result.Ok? ==>
            && s'.device.calls == steps.device.calls
            && TurnedOn(s, s', RawMode) && TurnedOn(s, s', AlternateScreen)
            && forall other :: other != RawMode && other != AlternateScreen ==> Untouched(s, s', other))
  {
    var (steps, result) := EnableModes(script, s, SCREEN_MODES);
    EnableModesPerforms(script, s, SCREEN_MODES);
    EnableTwo(script, s, RawMode, AlternateScreen);
    hide EnableModes;
    hide Performs;
    hide Missing;
    if result.Err? {
      RestoreOrderIsComplete();
      RestorePass(script, steps, RESTORE_ORDER, None);
    }
  }

  // ----- mouse modes and the cursor -----

  /** What is not wanted goes first, then comes what is missing. */
  function MouseCalls(owed: Obligations, mouse: bool, scroll: bool): seq<Operation> {
    (if mouse then [] else Present(owed, MouseCapture))
    + (if scroll then Missing(owed, [AlternateScroll]) else Present(owed, AlternateScroll))
    + if mouse then Missing(owed, [MouseCapture]) else []
  }

  lemma MouseModePerforms(script: Script, s: Lifecycle, mouse: bool, scroll: bool)
    ensures var (s', result) := ApplyMouseMode(script, s, mouse, scroll);
      Performs(script, s, s', MouseCalls(s.owed, mouse, scroll), result)
  {
    hide Performs;
    hide EnableMode;
    hide DisableMode;
    hide Obligations.Owes;
    var (s1, r1) := if mouse then (s, Ok(())) else DisableMode(script, s, MouseCapture);
    var first := if mouse then [] else Present(s.owed, MouseCapture);
    var (s2, r2) :=
      if scroll then EnableMode(script, s1, AlternateScroll) else DisableMode(script, s1, AlternateScroll);
    var second := if scroll then Missing(s.owed, [AlternateScroll]) else Present(s.owed, AlternateScroll);
    var (s3, r3) := if mouse then EnableMode(script, s2, MouseCapture) else (s2, Ok(()));
    var third := if mouse then Missing(s.owed, [MouseCapture]) else [];
    NothingPerformed(script, s);
    NothingPerformed(script, s2);
    DisablePerforms(script, s, MouseCapture);
    DisableOne(script, s, MouseCapture);
    assert Untouched(s, s1, AlternateScroll);
    EnablePerforms(script, s1, AlternateScroll);
    EnableOne(script, s1, AlternateScroll);
    DisablePerforms(script, s1, AlternateScroll);
    DisableOne(script, s1, AlternateScroll);
    assert Untouched(s1, s2, MouseCapture);
    EnablePerforms(script, s2, MouseCapture);
    MissingOne(s.owed, AlternateScroll);
    MissingOne(s.owed, MouseCapture);
    assert Performs(script, s, s1, first, r1) && Performs(script, s1, s2, second, r2);
    if r1.Err? {
      PerformsNoMore(script, s, s1, first, second + third, r1);
      assert first + (second + third) == first + second + third;
    } else {
      PerformsThen(script, s, s1, s2, first, r1, second, r2);
      if r2.Err? {
        PerformsNoMore(script, s, s2, first + second, third, r2);
      } else {
        PerformsThen(script, s, s2, s3, first + second, r2, third, r3);
      }
    }
  }

  lemma MissingOne(owed: Obligations, mode: Mode)
    ensures Missing(owed, [mode]) == if owed.Owes(mode) then [] else [Enable(mode)]
  {
    assert [mode][1..] == [];
  }

  /** Hiding the cursor always calls the terminal, and showing it is owed afterwards whatever happens. */
  lemma HideCursorPerforms(script: Script, s: Lifecycle)
    ensures var (s', result) := HideCursor(script, s);
      && Performs(script, s, s', [Enable(HiddenCursor)], result)
      && s'.owed.Owes(HiddenCursor) && (result.Ok? ==> IsOn(s', HiddenCursor))
      && forall other :: other != HiddenCursor ==> Untouched(s, s', other)
  {
    hide Obligations.Owes;
    hide Obligations.With;
  }

  // ----- cleanup -----

  /** The first of the calls `start, ..., start + n - 1` that fails does so with `error`. */
  ghost predicate FirstFailure(script: Script, start: nat, n: nat, error: IoError) {
    exists k: nat :: k < n && SucceedFrom(script, start, k) && FailsWith(script(start + k), error)
  }

  lemma {:induction false} FirstErrorMeaning(script: Script, start: nat, n: nat)
    ensures match FirstError(script, start, n)
            case None => SucceedFrom(script, start, n)
            case Some(error) => FirstFailure(script, start, n, error)
    decreases n
  {
    if n > 0 {
      if script(start).Succeeds? {
        FirstErrorMeaning(script, start + 1, n - 1);
        if FirstError(script, start + 1, n - 1).Some? {
          var error := FirstError(script, start + 1, n - 1).value;
          var k: nat :| k < n - 1 && SucceedFrom(script, start + 1, k) && FailsWith(script(start + 1 + k), error);
          assert SucceedFrom(script, start, k + 1) && start + 1 + k == start + (k + 1);
        }
      } else {
        assert SucceedFrom(script, start, 0) && FailsWith(script(start + 0), FirstError(script, start, n).value);
      }
    }
  }

  /** A cleanup of `modes` tries every inverse that is owed, in order; it returns Ok exactly if all of them
      succeed, and otherwise the error of the first that failed. */
  ghost predicate CleansUp(script: Script, s: Lifecycle, s': Lifecycle, modes: seq<Mode>, result: Result<(), IoError>) {
    var calls, start := PassCalls(s.owed, modes), |s.device.calls|;
    && s'.device.calls == s.device.calls + calls
    && StillOwed(script, start, s'.owed, calls)
    && (forall mode :: mode !in modes ==> s'.owed.Owes(mode) == s.owed.Owes(mode))
    && match result
       case Ok(_) => SucceedFrom(script, start, |calls|)
       case Err(error) => FirstFailure(script, start, |calls|, error)
  }

  lemma CleanupReports(script: Script, s: Lifecycle)
    ensures var (s', result) := RestoreAll(script, s); CleansUp(script, s, s', RESTORE_ORDER, result)
    ensures var (s', result) := RestoreModes(script, s); CleansUp(script, s, s', MODE_ORDER, result)
  {
    RestoreOrderIsComplete();
    ModeOrderIsDistinct();
    hide StillOwed;
    hide FirstFailure;
    hide RestoreEach;
    RestorePass(script, s, RESTORE_ORDER, None);
    RestorePass(script, s, MODE_ORDER, None);
    FirstErrorMeaning(script, |s.device.calls|, |PassCalls(s.owed, RESTORE_ORDER)|);
    FirstErrorMeaning(script, |s.device.calls|, |PassCalls(s.owed, MODE_ORDER)|);
  }

  const ALL_OWED := Obligations(true, true, true, true, true, true, true)

  /** With everything owed: the cursor first, raw mode last. */
  lemma FullCleanupCalls()
    ensures PassCalls(ALL_OWED, RESTORE_ORDER)
            == [Disable(HiddenCursor), Disable(KeyboardEnhancement), Disable(BracketedPaste), Disable(MouseCapture),
                Disable(AlternateScroll), Disable(AlternateScreen), Disable(RawMode)]
  {
    var modes := RESTORE_ORDER;
    assert |modes| == 7;
    assert PassCalls(ALL_OWED, modes[6..]) == [Disable(RawMode)] by { assert modes[6..][1..] == []; }
    assert modes[5..][1..] == modes[6..] && modes[4..][1..] == modes[5..] && modes[3..][1..] == modes[4..];
    assert modes[2..][1..] == modes[3..] && modes[1..][1..] == modes[2..] && modes[0..] == modes;
  }

  /** What Ok means after a restore that leaves the cursor alone. */
  lemma RestoreModesSettles(script: Script, s: Lifecycle)
    requires Safe(s) && RestoreModes(script, s).1.Ok?
    ensures var s' := RestoreModes(script, s).0;
      && (forall mode :: mode != HiddenCursor ==> TurnedOff(s', mode))
      && s'.owed.Owes(HiddenCursor) == s.owed.Owes(HiddenCursor)
  {
    var (s', result) := RestoreModes(script, s);
    CleanupReports(script, s);
    RestoreEachIsSafe(script, s, MODE_ORDER, None);
    RestoreOrderIsComplete();
    hide RestoreEach;
    var calls, start := PassCalls(s.owed, MODE_ORDER), |s.device.calls|;
    RestorePassOwes(script, s);
    forall mode | mode != HiddenCursor
      ensures TurnedOff(s', mode)
    {
      assert mode in RESTORE_ORDER && RESTORE_ORDER == [HiddenCursor] + MODE_ORDER && mode in MODE_ORDER;
      if s.owed.Owes(mode) {
        OwedIsCalled(s.owed, MODE_ORDER, mode);
        var k :| 0 <= k < |calls| && calls[k] == Disable(mode);
        assert script(start + k).Succeeds?;
      }
    }
  }

  lemma RestorePassOwes(script: Script, s: Lifecycle)
    ensures forall mode :: RestoreModes(script, s).0.owed.Owes(mode) ==> s.owed.Owes(mode)
  {
    ModeOrderIsDistinct();
    RestorePass(script, s, MODE_ORDER, None);
  }
}
