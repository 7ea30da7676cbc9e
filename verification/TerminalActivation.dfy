/** What a successful activation guarantees, and what a failed one leaves behind. */
module TerminalActivation {
  import opened Wrappers
  import opened TerminalModes
  import opened TerminalSafety

  predicate IsOn(s: Lifecycle, mode: Mode) { mode in s.device.on }

  /** A mode that is already owed is taken to be on. */
  ghost predicate TurnedOn(before: Lifecycle, after: Lifecycle, mode: Mode) {
    && after.owed.Owes(mode)
    && (IsOn(after, mode) <==> !before.owed.Owes(mode) || IsOn(before, mode))
  }

  ghost predicate TurnedOff(after: Lifecycle, mode: Mode) { !after.owed.Owes(mode) && !IsOn(after, mode) }

  ghost predicate Untouched(before: Lifecycle, after: Lifecycle, mode: Mode) {
    after.owed.Owes(mode) == before.owed.Owes(mode) && IsOn(after, mode) == IsOn(before, mode)
  }

  lemma EnableOne(script: Script, s: Lifecycle, mode: Mode)
    ensures var (s', result) := EnableMode(script, s, mode);
      && (result.Ok? ==> TurnedOn(s, s', mode))
      && s'.suppressKeyboard == s.suppressKeyboard
      && forall other :: other != mode ==> Untouched(s, s', other)
  {
    hide Obligations.Owes;
    hide Obligations.With;
  }

  lemma EnableTwo(script: Script, s: Lifecycle, a: Mode, b: Mode)
    requires a != b
    ensures var (s', result) := EnableModes(script, s, [a, b]);
      && (result.Ok? ==> TurnedOn(s, s', a) && TurnedOn(s, s', b))
      && s'.suppressKeyboard == s.suppressKeyboard
      && forall other :: other != a && other != b ==> Untouched(s, s', other)
  {
    var (s1, r1) := EnableMode(script, s, a);
    TwoInOrder(script, s, a, b);
    hide EnableMode;
    hide EnableModes;
    hide Obligations.Owes;
    EnableOne(script, s, a);
    EnableOne(script, s1, b);
    var s2 := EnableMode(script, s1, b).0;
    assert Untouched(s, s1, b) && Untouched(s1, s2, a);
    forall other | other != a && other != b
      ensures Untouched(s, EnableModes(script, s, [a, b]).0, other)
    {
      assert Untouched(s, s1, other) && Untouched(s1, s2, other);
    }
  }

  lemma TwoInOrder(script: Script, s: Lifecycle, a: Mode, b: Mode)
    ensures var (s', result) := EnableModes(script, s, [a, b]);
      var (s1, r1) := EnableMode(script, s, a);
      var (s2, r2) := if r1.Err? then (s1, r1) else EnableMode(script, s1, b);
      s' == s2 && (result.Ok? <==> r2.Ok?)
  {
    hide EnableMode;
    var s1 := EnableMode(script, s, a).0;
    assert [a, b][1..] == [b] && [b][1..] == [];
    var (s2, r2) := EnableMode(script, s1, b);
    assert EnableModes(script, s2, []) == (s2, Ok(()));
    assert EnableModes(script, s1, [b]).0 == s2;
  }

  lemma ForcedOff(script: Script, s: Lifecycle, mode: Mode)
    ensures var (s', result) := ForceDisableMode(script, s, mode);
      && (result.Ok? ==> TurnedOff(s', mode))
      && s'.suppressKeyboard == s.suppressKeyboard
      && forall other :: other != mode ==> Untouched(s, s', other)
  {
    hide Obligations.Owes;
    hide Obligations.With;
  }

  lemma KeyboardOnly(script: Script, s: Lifecycle)
    ensures var s' := EnableKeyboard(script, s);
      && (s.suppressKeyboard ==> s' == s)
      && forall other :: other != KeyboardEnhancement ==> Untouched(s, s', other)
  {
    hide Obligations.Owes;
    hide Obligations.With;
  }

  /** A successful main activation turns on exactly those of its four modes that were not owed already or
      were on, turns alternate scroll off, and leaves the cursor alone. */
  lemma ActivationTurnsModesOn(script: Script, s: Lifecycle)
    requires ActivateMain(script, s).1.Ok?
    ensures var s' := ActivateMain(script, s).0;
      && TurnedOn(s, s', RawMode) && TurnedOn(s, s', AlternateScreen)
      && TurnedOn(s, s', MouseCapture) && TurnedOn(s, s', BracketedPaste)
      && TurnedOff(s', AlternateScroll)
      && Untouched(s, s', HiddenCursor)
      && (s.suppressKeyboard ==> Untouched(s, s', KeyboardEnhancement))
  {
    var s1 := EnableModes(script, s, [RawMode, AlternateScreen]).0;
    var s2 := ForceDisableMode(script, s1, AlternateScroll).0;
    var s3 := EnableModes(script, s2, [MouseCapture, BracketedPaste]).0;
    hide EnableModes;
    hide ForceDisableMode;
    hide EnableKeyboard;
    hide Obligations.Owes;
    EnableTwo(script, s, RawMode, AlternateScreen);
    ForcedOff(script, s1, AlternateScroll);
    EnableTwo(script, s2, MouseCapture, BracketedPaste);
    KeyboardOnly(script, s3);
    var s4 := EnableKeyboard(script, s3);
    assert Untouched(s1, s2, RawMode) && Untouched(s2, s3, RawMode) && Untouched(s3, s4, RawMode);
    assert Untouched(s1, s2, AlternateScreen) && Untouched(s2, s3, AlternateScreen);
    assert Untouched(s3, s4, AlternateScreen);
    assert Untouched(s, s1, MouseCapture) && Untouched(s1, s2, MouseCapture) && Untouched(s3, s4, MouseCapture);
    assert Untouched(s, s1, BracketedPaste) && Untouched(s1, s2, BracketedPaste) && Untouched(s3, s4, BracketedPaste);
    assert Untouched(s2, s3, AlternateScroll) && Untouched(s3, s4, AlternateScroll);
    assert Untouched(s, s1, HiddenCursor) && Untouched(s1, s2, HiddenCursor);
    assert Untouched(s2, s3, HiddenCursor) && Untouched(s3, s4, HiddenCursor);
    assert s.suppressKeyboard ==> Untouched(s, s1, KeyboardEnhancement) && Untouched(s1, s2, KeyboardEnhancement);
    assert s.suppressKeyboard ==> Untouched(s2, s3, KeyboardEnhancement);
  }

  /** Nothing owed and everything off, as after a successful restore-all: then Ok means on. */
  lemma CleanActivationTurnsModesOn(script: Script, s: Lifecycle)
    requires Safe(s) && s.owed == NOTHING_OWED && ActivateMain(script, s).1.Ok?
    ensures var on := ActivateMain(script, s).0.device.on;
      {RawMode, AlternateScreen, MouseCapture, BracketedPaste} <= on
      <= {RawMode, AlternateScreen, MouseCapture, BracketedPaste, KeyboardEnhancement}
  {
    ActivationTurnsModesOn(script, s);
    var s' := ActivateMain(script, s).0;
    assert forall mode :: !IsOn(s, mode);
    forall mode | mode in s'.device.on
      ensures mode in {RawMode, AlternateScreen, MouseCapture, BracketedPaste, KeyboardEnhancement}
    {
      assert mode != AlternateScroll && mode != HiddenCursor;
    }
  }

  // ----- failed activations -----

  lemma {:induction false} NothingFailsNoError(script: Script, start: nat, n: nat)
    requires forall k :: start <= k < start + n ==> script(k).Succeeds?
    ensures FirstError(script, start, n) == None
    decreases n
  {
    if n > 0 { NothingFailsNoError(script, start + 1, n - 1); }
  }

  /** A cleanup succeeds exactly if it leaves nothing owed, and then every mode is off. */
  lemma CleanupSettlesAll(script: Script, s: Lifecycle)
    requires Safe(s)
    ensures var (s', result) := RestoreAll(script, s);
      && (result.Ok? <==> s'.owed == NOTHING_OWED)
      && (result.Ok? ==> s'.device.on == {})
  {
    var s' := RestoreAll(script, s).0;
    RestoreOrderIsComplete();
    RestorePass(script, s, RESTORE_ORDER, None);
    RestoreEachIsSafe(script, s, RESTORE_ORDER, None);
    if RestoreAll(script, s).1.Ok? {
      OkPassOwesNothing(script, s);
      AllFlags(s'.owed);
      assert forall mode :: mode in s'.device.on ==> s'.owed.Owes(mode);
    } else if s'.owed == NOTHING_OWED {
      var calls := PassCalls(s.owed, RESTORE_ORDER);
      forall k | |s.device.calls| <= k < |s.device.calls| + |calls|
        ensures script(k).Succeeds?
      {
        assert !s'.owed.Owes(calls[k - |s.device.calls|].mode);
      }
      NothingFailsNoError(script, |s.device.calls|, |calls|);
    }
  }

  /** What is left of a failed activation: the failed step's error, and everything off and nothing owed
      exactly if the cleanup succeeded. */
  ghost predicate UndoneBy(script: Script, failed: Lifecycle, error: IoError, after: Lifecycle,
                           result: Result<(), IoError>)
  {
    && after == RestoreAll(script, failed).0
    && result.Err? && result.error == error
    && (after.owed == NOTHING_OWED <==> RestoreAll(script, failed).1.Ok?)
    && (RestoreAll(script, failed).1.Ok? ==> after.device.on == {})
  }

  lemma FailedActivationCleansUp(script: Script, s: Lifecycle)
    requires Safe(s) && ActivateMainSteps(script, s).1.Err?
    ensures var (failed, reason) := ActivateMainSteps(script, s);
      UndoneBy(script, failed, reason.error, ActivateMain(script, s).0, ActivateMain(script, s).1)
  {
    ActivateMainStepsAreSafe(script, s);
    CleanupSettlesAll(script, ActivateMainSteps(script, s).0);
    hide ActivateMainSteps;
    hide RestoreAll;
  }

  lemma FailedMinimalActivationCleansUp(script: Script, s: Lifecycle)
    requires Safe(s) && EnableModes(script, s, [RawMode, AlternateScreen]).1.Err?
    ensures var (failed, reason) := EnableModes(script, s, [RawMode, AlternateScreen]);
      UndoneBy(script, failed, reason.error, ActivateMinimal(script, s).0, ActivateMinimal(script, s).1)
  {
    EnableModesIsSafe(script, s, [RawMode, AlternateScreen]);
    CleanupSettlesAll(script, EnableModes(script, s, [RawMode, AlternateScreen]).0);
    hide EnableModes;
    hide RestoreAll;
  }

  lemma {:induction false} OnlyTheLastIsOwed(script: Script, s: Lifecycle, modes: seq<Mode>, last: Mode)
    requires forall mode :: mode in modes ==> !s.owed.Owes(mode)
    ensures RestoreEach(script, s, modes + [last], None) == RestoreMode(script, s, last, None)
    decreases |modes|
  {
    if modes == [] {
      assert modes + [last] == [last] && [last][1..] == [];
    } else {
      assert (modes + [last])[1..] == modes[1..] + [last];
      OnlyTheLastIsOwed(script, s, modes[1..], last);
    }
  }

  lemma {:induction false} EnableModesSucceed(script: Script, s: Lifecycle, modes: seq<Mode>)
    requires forall k :: |s.device.calls| <= k ==> script(k).Succeeds?
    ensures EnableModes(script, s, modes).1.Ok?
    ensures |s.device.calls| <= |EnableModes(script, s, modes).0.device.calls|
    decreases |modes|
  {
    if modes != [] { EnableModesSucceed(script, EnableMode(script, s, modes[0]).0, modes[1..]); }
  }

  /** An obligation left by a failed cleanup makes the next activation skip the mode and still succeed:
      raw mode stays off although the activation returns Ok. */
  lemma SkippedModeStaysOff(script: Script)
    requires script(0) == Fails(1, false) && script(1) == Fails(1, false)
    requires forall k :: 2 <= k ==> script(k).Succeeds?
    ensures var s := ActAll(script, OFF, [Activate]);
      && ActivateMain(script, s).1.Ok? && !IsOn(ActivateMain(script, s).0, RawMode)
  {
    assert [Activate][..0] == [];
    var s := ActivateMain(script, OFF).0;
    assert ActAll(script, OFF, [Activate]) == s;
    FirstActivationFails(script);
    var s1 := EnableModes(script, s, [RawMode, AlternateScreen]).0;
    EnableModesSucceed(script, s, [RawMode, AlternateScreen]);
    var s2 := ForceDisableMode(script, s1, AlternateScroll).0;
    EnableModesSucceed(script, s2, [MouseCapture, BracketedPaste]);
    hide EnableModes;
    ActivationTurnsModesOn(script, s);
  }

  lemma FirstActivationFails(script: Script)
    requires script(0) == Fails(1, false) && script(1) == Fails(1, false)
    ensures ActivateMain(script, OFF).0
            == Lifecycle(false, NOTHING_OWED.With(RawMode, true), Device({}, [Enable(RawMode), Disable(RawMode)]))
  {
    hide RestoreEach;
    var failed := Lifecycle(false, NOTHING_OWED.With(RawMode, true), Device({}, [Enable(RawMode)]));
    assert DeviceAfter(script, OFF.device, Enable(RawMode)) == failed.device by {
      assert [] + [Enable(RawMode)] == [Enable(RawMode)];
    }
    assert EnableMode(script, OFF, RawMode) == (failed, Err(IoError(1, false)));
    assert EnableModes(script, OFF, [RawMode, AlternateScreen]) == (failed, Err(IoError(1, false)));
    var others := [HiddenCursor, KeyboardEnhancement, BracketedPaste, MouseCapture, AlternateScroll, AlternateScreen];
    OnlyTheLastIsOwed(script, failed, others, RawMode);
    assert RESTORE_ORDER == others + [RawMode];
  }

  // ----- mouse modes -----

  ghost predicate Switched(before: Lifecycle, after: Lifecycle, mode: Mode, wanted: bool) {
    if wanted then TurnedOn(before, after, mode)
    else !after.owed.Owes(mode) && (IsOn(after, mode) <==> !before.owed.Owes(mode) && IsOn(before, mode))
  }

  lemma DisableOne(script: Script, s: Lifecycle, mode: Mode)
    ensures var (s', result) := DisableMode(script, s, mode);
      && (result.Ok? ==> Switched(s, s', mode, false))
      && forall other :: other != mode ==> Untouched(s, s', other)
  {
    hide Obligations.Owes;
    hide Obligations.With;
  }

  /** Switching the mouse mode, when it returns Ok, puts mouse capture and alternate scroll where they were
      asked to be, up to skipped obligations, and touches nothing else. */
  lemma MouseModeIsApplied(script: Script, s: Lifecycle, mouse: bool, scroll: bool)
    requires ApplyMouseMode(script, s, mouse, scroll).1.Ok?
    ensures var s' := ApplyMouseMode(script, s, mouse, scroll).0;
      && Switched(s, s', MouseCapture, mouse)
      && Switched(s, s', AlternateScroll, scroll)
      && forall mode :: mode != MouseCapture && mode != AlternateScroll ==> Untouched(s, s', mode)
  {
    var s1 := if mouse then s else DisableMode(script, s, MouseCapture).0;
    var s2 := if scroll then s1 else DisableMode(script, s1, AlternateScroll).0;
    var s3 := if scroll then EnableMode(script, s2, AlternateScroll).0 else s2;
    var s4 := if mouse then EnableMode(script, s3, MouseCapture).0 else s3;
    assert s4 == ApplyMouseMode(script, s, mouse, scroll).0;
    hide DisableMode;
    hide EnableMode;
    hide Obligations.Owes;
    DisableOne(script, s, MouseCapture);
    DisableOne(script, s1, AlternateScroll);
    EnableOne(script, s2, AlternateScroll);
    EnableOne(script, s3, MouseCapture);
    forall mode: Mode
      ensures mode != MouseCapture ==> Untouched(s, s1, mode) && Untouched(s3, s4, mode)
      ensures mode != AlternateScroll ==> Untouched(s1, s2, mode) && Untouched(s2, s3, mode)
    {
    }
    assert Untouched(s1, s2, MouseCapture) && Untouched(s2, s3, MouseCapture);
    assert Untouched(s, s1, AlternateScroll) && Untouched(s3, s4, AlternateScroll);
    forall mode | mode != MouseCapture && mode != AlternateScroll
      ensures Untouched(s, s4, mode)
    {
      assert Untouched(s, s1, mode) && Untouched(s1, s2, mode) && Untouched(s2, s3, mode) && Untouched(s3, s4, mode);
    }
  }
}
